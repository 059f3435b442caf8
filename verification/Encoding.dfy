/**
  The encoder over a sink of fixed size: every method appends through `put`, and a write that does not fit
  fails without touching the sink. Also the length computation that is to predict how much is written.
 */
module Encoding {
  import opened Wire
  import opened Items

  /**
    Writing `b` behind `before` into room for `cap` bytes in all: it succeeds exactly when it fits, and what is
    in the sink afterwards is what was there and a prefix of `b`.
   */
  ghost predicate Wrote(before: bytes, cap: nat, b: bytes, after: bytes, ok: bool) {
    && (ok <==> |before| + |b| <= cap)
    && before <= after <= before + b
    && (ok ==> after == before + b)
  }

  lemma {:induction false} WroteThen(s0: bytes, cap: nat, a: bytes, s1: bytes, b: bytes, s2: bytes, ok: bool)
    requires Wrote(s0, cap, a, s1, true) && Wrote(s1, cap, b, s2, ok)
    ensures Wrote(s0, cap, a + b, s2, ok)
  {
    assert s1 + b == s0 + (a + b);
    assert s0 <= s1;
  }

  lemma {:induction false} WroteFailed(s0: bytes, cap: nat, a: bytes, s1: bytes, b: bytes)
    requires Wrote(s0, cap, a, s1, false)
    ensures Wrote(s0, cap, a + b, s1, false)
  {
    assert s0 + (a + b) == (s0 + a) + b;
  }

  lemma {:induction false} WroteNothing(s: bytes, cap: nat)
    requires |s| <= cap
    ensures Wrote(s, cap, [], s, true)
  {
    assert s + [] == s;
  }

  /** The writers of the encoder choose the shortest head, except where the maximum width is asked for. */
  predicate Writable(x: Item) {
    match x
    case Num(neg, w, n) => n <= U64_MAX && (w == Preferred(n) || (!neg && w == W8))
    case Str(text, c) => |c.data| <= U64_MAX && (c.w == Preferred(|c.data|) || (text && c.w == W8))
    case StrIndef(text, cs) =>
      forall i :: 0 <= i < |cs| ==> |cs[i].data| <= U64_MAX && cs[i].w == Preferred(|cs[i].data|)
    case Coll(isMap, w, xs) =>
      |xs| <= U64_MAX && w == Preferred(Announced(isMap, |xs|)) && forall i :: 0 <= i < |xs| ==> Writable(xs[i])
    case CollIndef(_, xs) => forall i :: 0 <= i < |xs| ==> Writable(xs[i])
    case Tagged(w, tag, y) => tag <= U64_MAX && w == Preferred(tag) && Writable(y)
    case Prim(w, n) => w != W1 || n >= 20
  }

  lemma {:induction false} EncodeAllSnoc(xs: seq<Item>, i: nat)
    requires i < |xs| && ValidAll(xs)
    ensures ValidAll(xs[..i]) && ValidAll(xs[..i + 1]) && Valid(xs[i])
    ensures EncodeAll(xs[..i + 1]) == EncodeAll(xs[..i]) + Encode(xs[i])
  {
    ValidPrefix(xs, i);
    ValidPrefix(xs, i + 1);
    ValidElement(xs, i);
    assert ValidAll([xs[i]]);
    EncodeAllConcat(xs[..i], [xs[i]]);
    assert xs[..i + 1] == xs[..i] + [xs[i]];
    assert EncodeAll([xs[i]]) == Encode(xs[i]) + EncodeAll([]);
  }

  lemma {:induction false} ValidPrefix(xs: seq<Item>, i: nat)
    requires i <= |xs| && ValidAll(xs)
    ensures ValidAll(xs[..i])
  {
    if i > 0 {
      ValidPrefix(xs[1..], i - 1);
      assert xs[..i][1..] == xs[1..][..i - 1];
    }
  }

  lemma {:induction false} ValidElement(xs: seq<Item>, i: nat)
    requires i < |xs| && ValidAll(xs)
    ensures Valid(xs[i])
  {
    if i > 0 {
      ValidElement(xs[1..], i - 1);
    }
  }

  class Encoder {
    const buf: array<byte>
    var pos: nat

    constructor (sink: array<byte>)
      ensures buf == sink && pos == 0
    {
      buf, pos := sink, 0;
    }

    ghost predicate Valid() reads this { pos <= buf.Length }

    ghost function Written(): bytes
      requires Valid()
      reads this, buf
    {
      buf[..pos]
    }

    /** `put` on a slice or a cursor over one. */
    method Put(b: bytes) returns (ok: bool)
      requires Valid()
      modifies this`pos, buf
      ensures Valid() && Wrote(old(Written()), buf.Length, b, Written(), ok)
      ensures !ok ==> Written() == old(Written())
    {
      if pos + |b| > buf.Length {
        return false;
      }
      forall j | 0 <= j < |b| {
        buf[pos + j] := b[j];
      }
      pos := pos + |b|;
      assert Written() == old(Written()) + b;
      return true;
    }

    /** A short head is one write. A longer argument is written separately, and can fail after its head byte. */
    method PutHead(major: nat, w: Width, n: nat) returns (ok: bool)
      requires Valid() && major < 8 && w.Fits(n)
      modifies this`pos, buf
      ensures Valid() && Wrote(old(Written()), buf.Length, Head(major, w, n), Written(), ok)
    {
      hide BigEndian, Wrote;
      if w.Imm? || w.W1? {
        ok := Put(Head(major, w, n));
        return;
      }
      ghost var s0 := Written();
      var first: bytes, rest := [32 * major + w.Info(n)], BigEndian(n, w.Extra());
      assert Head(major, w, n) == first + rest;
      ok := Put(first);
      ghost var s1 := Written();
      if ok {
        ok := Put(rest);
        WroteThen(s0, buf.Length, first, s1, rest, Written(), ok);
      } else {
        WroteFailed(s0, buf.Length, first, s1, rest);
      }
    }

    /** `type_len`, and `u64` and the other integer writers with major types 0 and 1. */
    method TypeLen(major: nat, x: nat) returns (ok: bool)
      requires Valid() && major < 8 && x <= U64_MAX
      modifies this`pos, buf
      ensures Valid() && Wrote(old(Written()), buf.Length, Head(major, Preferred(x), x), Written(), ok)
    {
      hide Wrote, Head;
      Pow256Values();
      if x <= 0x17 {
        ok := PutHead(major, Imm, x);
      } else if x <= 0xff {
        ok := PutHead(major, W1, x);
      } else if x <= 0xffff {
        ok := PutHead(major, W2, x);
      } else if x <= 0xffff_ffff {
        ok := PutHead(major, W4, x);
      } else {
        ok := PutHead(major, W8, x);
      }
    }

    /** `type_len_noncanonical` and `u64_noncanonical`: always eight bytes of argument. */
    method TypeLenNoncanonical(major: nat, x: nat) returns (ok: bool)
      requires Valid() && major < 8 && x <= U64_MAX
      modifies this`pos, buf
      ensures W8.Fits(x)
      ensures Valid() && Wrote(old(Written()), buf.Length, Head(major, W8, x), Written(), ok)
    {
      Pow256Values();
      ok := PutHead(major, W8, x);
    }

    /** `i8`, `i16`, `i32`, `i64` and `int`: the argument of a negative integer is one less than its absolute value. */
    method Integer(v: int) returns (ok: bool)
      requires Valid() && -1 - U64_MAX <= v <= U64_MAX
      modifies this`pos, buf
      ensures var x := if v < 0 then Num(true, Preferred(-1 - v), -1 - v) else Num(false, Preferred(v), v);
              Valid() && Wrote(old(Written()), buf.Length, Encode(x), Written(), ok)
    {
      hide Wrote, Head;
      if v >= 0 {
        ok := TypeLen(0, v);
      } else {
        ok := TypeLen(1, -1 - v);
      }
    }

    /** `simple`: one byte below 20, and two otherwise. */
    method SimpleValue(n: byte) returns (ok: bool)
      requires Valid()
      modifies this`pos, buf
      ensures W1.Fits(n)
      ensures Valid() && Wrote(old(Written()), buf.Length, Encode(Prim(if n < 20 then Imm else W1, n)), Written(), ok)
    {
      Pow256Values();
      hide Wrote, Head;
      if n < 0x14 {
        ok := PutHead(7, Imm, n);
      } else {
        ok := PutHead(7, W1, n);
      }
    }

    /** `bytes`, `str` and `str_noncanonical`. */
    method WriteStr(text: bool, c: Chunk) returns (ok: bool)
      requires Valid() && ValidChunk(text, c) && |c.data| <= U64_MAX && (c.w == Preferred(|c.data|) || c.w == W8)
      modifies this`pos, buf
      ensures Valid() && Wrote(old(Written()), buf.Length, EncodeChunk(text, c), Written(), ok)
    {
      hide Wrote, Head;
      ghost var s0, h := Written(), Head(StrMajor(text), c.w, |c.data|);
      if c.w == W8 {
        ok := TypeLenNoncanonical(StrMajor(text), |c.data|);
      } else {
        ok := TypeLen(StrMajor(text), |c.data|);
      }
      ghost var s1 := Written();
      if ok {
        ok := Put(c.data);
        WroteThen(s0, buf.Length, h, s1, c.data, Written(), ok);
      } else {
        WroteFailed(s0, buf.Length, h, s1, c.data);
      }
    }

    method PutByte(b: byte) returns (ok: bool)
      requires Valid()
      modifies this`pos, buf
      ensures Valid() && Wrote(old(Written()), buf.Length, [b], Written(), ok)
    {
      ok := Put([b]);
    }

    /** Any item, as the `Encode` impls for values, sequences and maps write it. */
    method EncodeItem(x: Item) returns (ok: bool)
      requires Valid() && Items.Valid(x) && Writable(x)
      modifies this`pos, buf
      ensures Valid() && Wrote(old(Written()), buf.Length, Encode(x), Written(), ok)
      ensures Canonical(x) ==> (ok <==> CborLen(x) <= buf.Length - old(pos)) && (ok ==> pos == old(pos) + CborLen(x))
      decreases x, 1
    {
      FitsExactlyWhenPredicted(Written(), buf.Length, x);
      hide Wrote, Head, EncodeAll, EncodeChunks, CborLen, Canonical;
      match x {
        case Num(neg, w, n) =>
          if w == Preferred(n) {
            ok := TypeLen(if neg then 1 else 0, n);
          } else {
            ok := TypeLenNoncanonical(0, n);
          }
        case Str(text, c) =>
          ok := WriteStr(text, c);
        case StrIndef(text, cs) =>
          ok := EncodeIndefString(text, cs);
        case Coll(_, _, _) =>
          ok := EncodeColl(x);
        case CollIndef(_, _) =>
          ok := EncodeCollIndef(x);
        case Tagged(w, tag, y) =>
          ghost var s0 := Written();
          ok := TypeLen(6, tag);
          ghost var s1 := Written();
          if ok {
            ok := EncodeItem(y);
            WroteThen(s0, buf.Length, Head(6, w, tag), s1, Encode(y), Written(), ok);
          } else {
            WroteFailed(s0, buf.Length, Head(6, w, tag), s1, Encode(y));
          }
        case Prim(w, n) =>
          ok := PutHead(7, w, n);
      }
    }

    method EncodeColl(x: Item) returns (ok: bool)
      requires Valid() && x.Coll? && Items.Valid(x) && Writable(x)
      modifies this`pos, buf
      ensures Valid() && Wrote(old(Written()), buf.Length, Encode(x), Written(), ok)
      decreases x, 0
    {
      hide Wrote, Head, EncodeAll;
      ghost var s0 := Written();
      var n := Announced(x.isMap, |x.items|);
      ghost var h := Head(CollMajor(x.isMap), x.w, n);
      ok := TypeLen(CollMajor(x.isMap), n);
      ghost var s1 := Written();
      if ok {
        ok := EncodeItems(x.items);
        WroteThen(s0, buf.Length, h, s1, EncodeAll(x.items), Written(), ok);
      } else {
        WroteFailed(s0, buf.Length, h, s1, EncodeAll(x.items));
      }
    }

    method EncodeCollIndef(x: Item) returns (ok: bool)
      requires Valid() && x.CollIndef? && Items.Valid(x) && Writable(x)
      modifies this`pos, buf
      ensures Valid() && Wrote(old(Written()), buf.Length, Encode(x), Written(), ok)
      decreases x, 0
    {
      hide Wrote, EncodeAll;
      var h: byte := IndefHead(CollMajor(x.isMap));
      ghost var s0, body := Written(), EncodeAll(x.items);
      assert Encode(x) == ([h] + body) + [BREAK];
      ok := PutByte(h);
      ghost var s1 := Written();
      if !ok {
        WroteFailed(s0, buf.Length, [h], s1, body);
        WroteFailed(s0, buf.Length, [h] + body, s1, [BREAK]);
        return;
      }
      ok := EncodeItems(x.items);
      ghost var s2 := Written();
      WroteThen(s0, buf.Length, [h], s1, body, s2, ok);
      if !ok {
        WroteFailed(s0, buf.Length, [h] + body, s2, [BREAK]);
        return;
      }
      ok := PutByte(BREAK);
      WroteThen(s0, buf.Length, [h] + body, s2, [BREAK], Written(), ok);
    }

    method EncodeItems(xs: seq<Item>) returns (ok: bool)
      requires Valid() && ValidAll(xs) && forall i :: 0 <= i < |xs| ==> Writable(xs[i])
      modifies this`pos, buf
      ensures Valid() && Wrote(old(Written()), buf.Length, EncodeAll(xs), Written(), ok)
      decreases xs, 0
    {
      ghost var s0 := Written();
      WroteNothing(s0, buf.Length);
      hide Wrote, Writable, Encode;
      assert xs[..0] == [];
      for i := 0 to |xs|
        invariant Valid() && ValidAll(xs[..i]) && Wrote(s0, buf.Length, EncodeAll(xs[..i]), Written(), true)
      {
        hide EncodeAll;
        EncodeAllSnoc(xs, i);
        ghost var s1 := Written();
        ok := EncodeItem(xs[i]);
        if !ok {
          WroteThen(s0, buf.Length, EncodeAll(xs[..i]), s1, Encode(xs[i]), Written(), false);
          Rest(xs, i + 1);
          WroteFailed(s0, buf.Length, EncodeAll(xs[..i + 1]), Written(), EncodeAll(xs[i + 1..]));
          return;
        }
        WroteThen(s0, buf.Length, EncodeAll(xs[..i]), s1, Encode(xs[i]), Written(), true);
      }
      assert xs[..|xs|] == xs;
      ok := true;
    }

    /** `begin_bytes` or `begin_str`, the chunks, `end`. */
    method EncodeIndefString(text: bool, cs: seq<Chunk>) returns (ok: bool)
      requires Valid() && Items.Valid(StrIndef(text, cs)) && Writable(StrIndef(text, cs))
      modifies this`pos, buf
      ensures Valid() && Wrote(old(Written()), buf.Length, Encode(StrIndef(text, cs)), Written(), ok)
    {
      hide Wrote, EncodeChunks;
      var h: byte := IndefHead(StrMajor(text));
      ghost var s0, body := Written(), EncodeChunks(text, cs);
      assert Encode(StrIndef(text, cs)) == ([h] + body) + [BREAK];
      ok := PutByte(h);
      ghost var s1 := Written();
      if !ok {
        WroteFailed(s0, buf.Length, [h], s1, body);
        WroteFailed(s0, buf.Length, [h] + body, s1, [BREAK]);
        return;
      }
      ok := EncodeChunkList(text, cs);
      ghost var s2 := Written();
      WroteThen(s0, buf.Length, [h], s1, body, s2, ok);
      if !ok {
        WroteFailed(s0, buf.Length, [h] + body, s2, [BREAK]);
        return;
      }
      ok := PutByte(BREAK);
      WroteThen(s0, buf.Length, [h] + body, s2, [BREAK], Written(), ok);
    }

    method EncodeChunkList(text: bool, cs: seq<Chunk>) returns (ok: bool)
      requires Valid() && Items.Valid(StrIndef(text, cs)) && Writable(StrIndef(text, cs))
      modifies this`pos, buf
      ensures Valid() && Wrote(old(Written()), buf.Length, EncodeChunks(text, cs), Written(), ok)
      decreases |cs|
    {
      if cs == [] {
        WroteNothing(Written(), buf.Length);
        return true;
      }
      hide Wrote, EncodeChunk;
      ghost var s0 := Written();
      ok := WriteStr(text, cs[0]);
      ghost var s1 := Written();
      if ok {
        ok := EncodeChunkList(text, cs[1..]);
        WroteThen(s0, buf.Length, EncodeChunk(text, cs[0]), s1, EncodeChunks(text, cs[1..]), Written(), ok);
      } else {
        WroteFailed(s0, buf.Length, EncodeChunk(text, cs[0]), s1, EncodeChunks(text, cs[1..]));
      }
    }
  }

  lemma {:induction false} Rest(xs: seq<Item>, i: nat)
    requires i <= |xs| && ValidAll(xs)
    ensures ValidAll(xs[..i]) && ValidAll(xs[i..]) && EncodeAll(xs) == EncodeAll(xs[..i]) + EncodeAll(xs[i..])
  {
    hide EncodeAll, ValidAll;
    ValidPrefix(xs, i);
    ValidSuffix(xs, i);
    EncodeAllConcat(xs[..i], xs[i..]);
    assert xs[..i] + xs[i..] == xs;
  }

  lemma {:induction false} ValidSuffix(xs: seq<Item>, i: nat)
    requires i <= |xs| && ValidAll(xs)
    ensures ValidAll(xs[i..])
  {
    if i == 0 {
      assert xs[0..] == xs;
    } else {
      ValidSuffix(xs[1..], i - 1);
      assert xs[1..][i - 1..] == xs[i..];
    }
  }

  // ----- predicted lengths -----

  /** `cbor_len` of an unsigned integer, and of every length, tag and index that is written like one. */
  function UintLen(n: nat): nat {
    if n <= 0x17 then 1 else if n <= 0xff then 2 else if n <= 0xffff then 3 else if n <= 0xffff_ffff then 5 else 9
  }

  /** `cbor_len` by the shape of the value; an item in an indefinite container has no such impl. */
  function CborLen(x: Item): nat
    decreases x
  {
    match x
    case Num(_, _, n) => UintLen(n)
    case Str(_, c) => UintLen(|c.data|) + |c.data|
    case StrIndef(_, cs) => 2 + ChunkLens(cs)
    case Coll(isMap, _, xs) => UintLen(Announced(isMap, |xs|)) + CborLens(xs)
    case CollIndef(_, xs) => 2 + CborLens(xs)
    case Tagged(_, tag, y) => UintLen(tag) + CborLen(y)
    case Prim(w, _) => 1 + w.Extra()
  }

  function CborLens(xs: seq<Item>): nat
    decreases xs
  {
    if xs == [] then 0 else CborLen(xs[0]) + CborLens(xs[1..])
  }

  function ChunkLens(cs: seq<Chunk>): nat {
    if cs == [] then 0 else UintLen(|cs[0].data|) + |cs[0].data| + ChunkLens(cs[1..])
  }

  lemma {:induction false} UintLenIsHead(n: nat)
    requires n <= U64_MAX
    ensures UintLen(n) == 1 + Preferred(n).Extra()
  {
    Pow256Values();
  }

  predicate Canonical(x: Item) {
    Writable(x) && match x
    case Num(_, w, n) => w == Preferred(n)
    case Str(_, c) => c.w == Preferred(|c.data|)
    case StrIndef(_, _) => true
    case Coll(_, _, xs) => forall i :: 0 <= i < |xs| ==> Canonical(xs[i])
    case CollIndef(_, xs) => forall i :: 0 <= i < |xs| ==> Canonical(xs[i])
    case Tagged(_, _, y) => Canonical(y)
    case Prim(_, _) => true
  }

  /** The predicted length of every value written with shortest heads is the number of bytes written. */
  lemma {:induction false} CborLenIsExact(x: Item)
    requires Valid(x) && Canonical(x)
    ensures CborLen(x) == |Encode(x)|
    decreases x, 1
  {
    match x
    case Num(_, _, n) => UintLenIsHead(n);
    case Str(_, c) => UintLenIsHead(|c.data|);
    case StrIndef(text, cs) => ChunkLensExact(text, cs);
    case Coll(isMap, _, xs) =>
      UintLenIsHead(Announced(isMap, |xs|));
      CborLensExact(xs);
    case CollIndef(_, xs) => CborLensExact(xs);
    case Tagged(_, tag, y) =>
      UintLenIsHead(tag);
      CborLenIsExact(y);
    case Prim(_, _) =>
  }

  lemma {:induction false} CborLensExact(xs: seq<Item>)
    requires ValidAll(xs) && forall i :: 0 <= i < |xs| ==> Canonical(xs[i])
    ensures CborLens(xs) == |EncodeAll(xs)|
    decreases xs, 0
  {
    if xs != [] {
      CborLenIsExact(xs[0]);
      CborLensExact(xs[1..]);
    }
  }

  lemma {:induction false} ChunkLensExact(text: bool, cs: seq<Chunk>)
    requires Valid(StrIndef(text, cs)) && Writable(StrIndef(text, cs))
    ensures ChunkLens(cs) == |EncodeChunks(text, cs)|
    decreases cs
  {
    if cs != [] {
      UintLenIsHead(|cs[0].data|);
      assert Writable(StrIndef(text, cs[1..]));
      ChunkLensExact(text, cs[1..]);
    }
  }

  /** So encoding into a slice succeeds exactly when the predicted number of bytes is free. */
  lemma {:induction false} FitsExactlyWhenPredicted(before: bytes, cap: nat, x: Item)
    requires Valid(x)
    ensures Canonical(x) ==>
      forall after, ok | Wrote(before, cap, Encode(x), after, ok) ::
        (ok <==> CborLen(x) <= cap - |before|) && (ok ==> |after| == |before| + CborLen(x))
  {
    if Canonical(x) {
      CborLenIsExact(x);
    }
  }
}
