/**
  A recursive decoder for whole data items, built on the decoder's own readers. It is the inverse of
  `Items.Encode`: it accepts exactly the encodings of valid items and returns the tree, head widths included.
 */
module Parse {
  import opened Wire
  import opened Items
  import opened Reads

  datatype Parsed<+T> = Failed | Parsed(value: T, pos: nat)

  function WidthOf(info: nat): Width
    requires info < 28
  {
    if info < 24 then Imm else if info == 24 then W1 else if info == 25 then W2 else if info == 26 then W4 else W8
  }

  function ItemAt(buf: bytes, pos: nat): (r: Parsed<Item>)
    ensures r.Parsed? ==> pos < r.pos <= |buf|
    decreases |buf| - pos, 0
  {
    if pos >= |buf| then Failed
    else
      var major, info := buf[pos] / 32, buf[pos] % 32;
      if info == 31 then
        if 2 <= major <= 3 then
          match ChunkTreesAt(buf, pos + 1, major == 3)
          case Parsed(cs, p) => Parsed(StrIndef(major == 3, cs), p)
          case Failed => Failed
        else if 4 <= major <= 5 then
          match ItemsToBreakAt(buf, pos + 1)
          case Parsed(xs, p) => if major == 5 && |xs| % 2 != 0 then Failed else Parsed(CollIndef(major == 5, xs), p)
          case Failed => Failed
        else Failed
      else if info >= 28 then Failed
      else if major == 7 then PrimAt(buf, pos)
      else match UnsignedAt(buf, pos + 1, info)
        case Err(_, _) => Failed
        case Ok(n, p) =>
          var w := WidthOf(info);
          if p > |buf| then Failed
          else if major < 2 then Parsed(Num(major == 1, w, n), p)
          else if major < 4 then
            match CheckText(major == 3, SliceAt(buf, p, n))
            case Ok(data, q) => Parsed(Str(major == 3, Chunk(w, data)), q)
            case Err(_, _) => Failed
          else if major < 6 then
            match ItemsAt(buf, p, if major == 5 then 2 * n else n)
            case Parsed(xs, q) => Parsed(Coll(major == 5, w, xs), q)
            case Failed => Failed
          else
            match ItemAt(buf, p)
            case Parsed(y, q) => Parsed(Tagged(w, n, y), q)
            case Failed => Failed
  }

  function ParsedAs<T, U>(r: Res<T>, f: T -> U): Parsed<U> {
    match r
    case Ok(v, p) => Parsed(f(v), p)
    case Err(_, _) => Failed
  }

  /** Simple values and floats, each with the reader its type asks for. */
  function PrimAt(buf: bytes, pos: nat): (r: Parsed<Item>)
    requires pos < |buf|
    ensures r.Parsed? ==> pos < r.pos <= |buf|
  {
    match DatatypeAt(buf, pos)
    case Ok(Bool, _) => ParsedAs(BoolAt(buf, pos), v => Prim(Imm, if v then 21 else 20))
    case Ok(Null, _) => ParsedAs(ExactlyAt(buf, pos, 0xf6), _ => Prim(Imm, 22))
    case Ok(Undefined, _) => ParsedAs(ExactlyAt(buf, pos, 0xf7), _ => Prim(Imm, 23))
    case Ok(Simple, _) => ParsedAs(SimpleAt(buf, pos), n => Prim(if buf[pos] == 0xf8 then W1 else Imm, n))
    case Ok(F16, _) => ParsedAs(FloatAt(buf, pos, W2), (f: Float) => Prim(f.w, f.bits))
    case Ok(F32, _) => ParsedAs(FloatAt(buf, pos, W4), (f: Float) => Prim(f.w, f.bits))
    case Ok(F64, _) => ParsedAs(FloatAt(buf, pos, W8), (f: Float) => Prim(f.w, f.bits))
    case _ => Failed
  }

  /** Those readers together do what the general argument reader would. */
  lemma {:induction false} PrimIsArgument(buf: bytes, pos: nat)
    requires pos < |buf| && buf[pos] / 32 == 7 && buf[pos] % 32 < 28
    ensures PrimAt(buf, pos) == ParsedAs(UnsignedAt(buf, pos + 1, buf[pos] % 32), n => Prim(WidthOf(buf[pos] % 32), n))
  {
    var b := buf[pos];
    assert b == 224 + b % 32;
    if b == 0xf8 && pos + 1 < |buf| {
      assert buf[pos + 1..pos + 2] == [buf[pos + 1]] && FromBigEndian([buf[pos + 1]]) == buf[pos + 1];
    }
    hide FromBigEndian;
  }

  function ItemsAt(buf: bytes, pos: nat, k: nat): (r: Parsed<seq<Item>>)
    requires pos <= |buf|
    ensures r.Parsed? ==> pos <= r.pos <= |buf| && |r.value| == k
    decreases |buf| - pos, 1
  {
    if k == 0 then Parsed([], pos)
    else match ItemAt(buf, pos)
      case Failed => Failed
      case Parsed(x, p) =>
        match ItemsAt(buf, p, k - 1)
        case Failed => Failed
        case Parsed(xs, q) => Parsed([x] + xs, q)
  }

  function ItemsToBreakAt(buf: bytes, pos: nat): (r: Parsed<seq<Item>>)
    ensures r.Parsed? ==> pos < r.pos <= |buf|
    decreases |buf| - pos, 1
  {
    if pos >= |buf| then Failed
    else if buf[pos] == BREAK then Parsed([], pos + 1)
    else match ItemAt(buf, pos)
      case Failed => Failed
      case Parsed(x, p) =>
        match ItemsToBreakAt(buf, p)
        case Failed => Failed
        case Parsed(xs, q) => Parsed([x] + xs, q)
  }

  function ChunkTreesAt(buf: bytes, pos: nat, text: bool): (r: Parsed<seq<Chunk>>)
    ensures r.Parsed? ==> pos < r.pos <= |buf|
    decreases |buf| - pos
  {
    if pos >= |buf| then Failed
    else if buf[pos] == BREAK then Parsed([], pos + 1)
    else match DefiniteAt(buf, pos, text)
      case Err(_, _) => Failed
      case Ok(data, p) =>
        if buf[pos] % 32 >= 28 || p > |buf| then Failed
        else match ChunkTreesAt(buf, p, text)
          case Failed => Failed
          case Parsed(cs, q) => Parsed([Chunk(WidthOf(buf[pos] % 32), data)] + cs, q)
  }

  // ----- every encoding is read back -----

  lemma {:induction false} InfoRoundTrip(w: Width, n: nat)
    requires w.Fits(n)
    ensures w.Info(n) < 28 && WidthOf(w.Info(n)) == w
  {
  }

  lemma {:induction false} DecodesChunks(buf: bytes, pos: nat, text: bool, cs: seq<Chunk>)
    requires forall i :: 0 <= i < |cs| ==> ValidChunk(text, cs[i])
    requires At(buf, pos, EncodeChunks(text, cs) + [BREAK])
    ensures ChunkTreesAt(buf, pos, text) == Parsed(cs, pos + |EncodeChunks(text, cs)| + 1)
    decreases cs
  {
    hide DefiniteAt, EncodeChunk, ValidChunk;
    if cs == [] {
      assert EncodeChunks(text, cs) + [BREAK] == [BREAK];
      AtByte(buf, pos, BREAK);
    } else {
      var c := cs[0];
      DecodesChunkHead(buf, pos, text, c, EncodeChunks(text, cs[1..]) + [BREAK]);
      assert EncodeChunks(text, cs) + [BREAK] == EncodeChunk(text, c) + (EncodeChunks(text, cs[1..]) + [BREAK]);
      DecodesChunks(buf, pos + |EncodeChunk(text, c)|, text, cs[1..]);
      assert [c] + cs[1..] == cs;
    }
  }

  lemma {:induction false} DecodesChunkHead(buf: bytes, pos: nat, text: bool, c: Chunk, rest: bytes)
    requires ValidChunk(text, c) && At(buf, pos, EncodeChunk(text, c) + rest)
    ensures DefiniteAt(buf, pos, text) == Ok(c.data, pos + |EncodeChunk(text, c)|)
    ensures buf[pos] != BREAK && buf[pos] % 32 < 28 && WidthOf(buf[pos] % 32) == c.w
    ensures At(buf, pos + |EncodeChunk(text, c)|, rest)
  {
    AtConcat(buf, pos, EncodeChunk(text, c), rest);
    ChunkReads(buf, pos, text, c);
    AtConcat(buf, pos, Head(StrMajor(text), c.w, |c.data|), c.data);
    HeadReads(buf, pos, StrMajor(text), c.w, |c.data|);
    InfoRoundTrip(c.w, |c.data|);
  }

  /** Decoding the encoding of any item, whatever follows it, returns the item and stops at its end. */
  lemma {:induction false} DecodesItem(buf: bytes, pos: nat, x: Item)
    requires Valid(x) && At(buf, pos, Encode(x))
    ensures ItemAt(buf, pos) == Parsed(x, pos + |Encode(x)|)
    decreases x, 1
  {
    hide At, UnsignedAt, Head, ChunkTreesAt, ItemsToBreakAt, ItemsAt, EncodeChunks, Utf8, PrimAt;
    match x
    case Num(neg, w, n) =>
      HeadReads(buf, pos, if neg then 1 else 0, w, n);
      InfoRoundTrip(w, n);
    case Str(text, c) =>
      DecodesStr(buf, pos, text, c);
    case StrIndef(text, cs) =>
      DecodesStrIndef(buf, pos, text, cs);
    case Coll(_, _, _) =>
      DecodesColl(buf, pos, x);
    case CollIndef(_, _) =>
      DecodesColl(buf, pos, x);
    case Tagged(w, tag, y) =>
      AtConcat(buf, pos, Head(6, w, tag), Encode(y));
      HeadReads(buf, pos, 6, w, tag);
      InfoRoundTrip(w, tag);
      DecodesItem(buf, pos + 1 + w.Extra(), y);
    case Prim(w, n) =>
      HeadReads(buf, pos, 7, w, n);
      InfoRoundTrip(w, n);
      PrimIsArgument(buf, pos);
  }

  lemma {:induction false} DecodesColl(buf: bytes, pos: nat, x: Item)
    requires (x.Coll? || x.CollIndef?) && Valid(x) && At(buf, pos, Encode(x))
    ensures ItemAt(buf, pos) == Parsed(x, pos + |Encode(x)|)
    decreases x, 0
  {
    hide At, UnsignedAt, Head, ChunkTreesAt, ItemsToBreakAt, ItemsAt, EncodeAll;
    if x.Coll? {
      var n := Announced(x.isMap, |x.items|);
      var h := Head(CollMajor(x.isMap), x.w, n);
      AtConcat(buf, pos, h, EncodeAll(x.items));
      HeadReads(buf, pos, CollMajor(x.isMap), x.w, n);
      InfoRoundTrip(x.w, n);
      DecodesItems(buf, pos + |h|, x.items);
    } else {
      var h: byte := IndefHead(CollMajor(x.isMap));
      assert Encode(x) == [h] + (EncodeAll(x.items) + [BREAK]);
      AtConcat(buf, pos, [h], EncodeAll(x.items) + [BREAK]);
      AtByte(buf, pos, h);
      DecodesItemsToBreak(buf, pos + 1, x.items);
    }
  }

  lemma {:induction false} DecodesStr(buf: bytes, pos: nat, text: bool, c: Chunk)
    requires ValidChunk(text, c) && At(buf, pos, EncodeChunk(text, c))
    ensures ItemAt(buf, pos) == Parsed(Str(text, c), pos + |EncodeChunk(text, c)|)
  {
    var h := Head(StrMajor(text), c.w, |c.data|);
    AtConcat(buf, pos, h, c.data);
    HeadReads(buf, pos, StrMajor(text), c.w, |c.data|);
    InfoRoundTrip(c.w, |c.data|);
    assert SliceAt(buf, pos + |h|, |c.data|) == Ok(c.data, pos + |h| + |c.data|);
  }

  lemma {:induction false} DecodesStrIndef(buf: bytes, pos: nat, text: bool, cs: seq<Chunk>)
    requires Valid(StrIndef(text, cs)) && At(buf, pos, Encode(StrIndef(text, cs)))
    ensures ItemAt(buf, pos) == Parsed(StrIndef(text, cs), pos + |Encode(StrIndef(text, cs))|)
  {
    hide At, ChunkTreesAt, ItemsToBreakAt, ItemsAt, UnsignedAt, EncodeChunks;
    var h: byte := IndefHead(StrMajor(text));
    var rest := EncodeChunks(text, cs) + [BREAK];
    assert Encode(StrIndef(text, cs)) == [h] + rest;
    AtConcat(buf, pos, [h], rest);
    AtByte(buf, pos, h);
    DecodesChunks(buf, pos + 1, text, cs);
  }

  lemma {:induction false} DecodesItems(buf: bytes, pos: nat, xs: seq<Item>)
    requires ValidAll(xs) && At(buf, pos, EncodeAll(xs))
    ensures ItemsAt(buf, pos, |xs|) == Parsed(xs, pos + |EncodeAll(xs)|)
    decreases xs, 0
  {
    hide ItemAt, Encode;
    if xs != [] {
      AtConcat(buf, pos, Encode(xs[0]), EncodeAll(xs[1..]));
      DecodesItem(buf, pos, xs[0]);
      DecodesItems(buf, pos + |Encode(xs[0])|, xs[1..]);
      assert [xs[0]] + xs[1..] == xs;
    }
  }

  lemma {:induction false} DecodesItemsToBreak(buf: bytes, pos: nat, xs: seq<Item>)
    requires ValidAll(xs) && At(buf, pos, EncodeAll(xs) + [BREAK])
    ensures ItemsToBreakAt(buf, pos) == Parsed(xs, pos + |EncodeAll(xs)| + 1)
    decreases xs, 0
  {
    hide ItemAt, Encode;
    if xs == [] {
      assert EncodeAll(xs) + [BREAK] == [BREAK];
      AtByte(buf, pos, BREAK);
    } else {
      var rest := EncodeAll(xs[1..]) + [BREAK];
      assert EncodeAll(xs) + [BREAK] == Encode(xs[0]) + rest;
      AtConcat(buf, pos, Encode(xs[0]), rest);
      FirstByte(xs[0]);
      assert buf[pos] == Encode(xs[0])[0];
      DecodesItem(buf, pos, xs[0]);
      DecodesItemsToBreak(buf, pos + |Encode(xs[0])|, xs[1..]);
      assert [xs[0]] + xs[1..] == xs;
    }
  }

  // ----- nothing else is accepted -----

  lemma {:induction false} HeadFromReads(buf: bytes, pos: nat)
    requires pos < |buf| && buf[pos] % 32 < 28 && UnsignedAt(buf, pos + 1, buf[pos] % 32).Ok?
    ensures var r := UnsignedAt(buf, pos + 1, buf[pos] % 32);
            var w := WidthOf(buf[pos] % 32);
            w.Fits(r.value) && r.pos == pos + 1 + w.Extra() && At(buf, pos, Head(buf[pos] / 32, w, r.value))
  {
    hide BigEndian, FromBigEndian, Pow256;
    var info := buf[pos] % 32;
    var r := UnsignedAt(buf, pos + 1, info);
    var w := WidthOf(info);
    AtByte(buf, pos, buf[pos]);
    if w != Imm {
      var tail := buf[pos + 1..r.pos];
      FromBigEndianRoundTrip(tail);
      assert At(buf, pos + 1, tail);
      AtConcat(buf, pos, [buf[pos]], tail);
      assert Head(buf[pos] / 32, w, r.value) == [buf[pos]] + tail;
    } else {
      assert Head(buf[pos] / 32, w, r.value) == [buf[pos]];
    }
  }

  lemma {:induction false} ChunkFromReads(buf: bytes, pos: nat, text: bool)
    requires DefiniteAt(buf, pos, text).Ok? && pos < |buf| && buf[pos] % 32 < 28
    ensures var c := Chunk(WidthOf(buf[pos] % 32), DefiniteAt(buf, pos, text).value);
            ValidChunk(text, c) && At(buf, pos, EncodeChunk(text, c))
            && DefiniteAt(buf, pos, text).pos == pos + |EncodeChunk(text, c)|
  {
    HeadFromReads(buf, pos);
    var r := UnsignedAt(buf, pos + 1, buf[pos] % 32);
    var data := SliceAt(buf, r.pos, r.value).value;
    assert At(buf, r.pos, data);
    AtConcat(buf, pos, Head(StrMajor(text), WidthOf(buf[pos] % 32), |data|), data);
  }

  lemma {:induction false} ChunksFromReads(buf: bytes, pos: nat, text: bool)
    requires ChunkTreesAt(buf, pos, text).Parsed?
    ensures var r := ChunkTreesAt(buf, pos, text);
            (forall i :: 0 <= i < |r.value| ==> ValidChunk(text, r.value[i]))
            && At(buf, pos, EncodeChunks(text, r.value) + [BREAK]) && r.pos == pos + |EncodeChunks(text, r.value)| + 1
    decreases |buf| - pos
  {
    hide DefiniteAt, EncodeChunk, At;
    if buf[pos] == BREAK {
      AtByte(buf, pos, BREAK);
      assert EncodeChunks(text, []) + [BREAK] == [BREAK];
    } else {
      var p := DefiniteAt(buf, pos, text).pos;
      var c := Chunk(WidthOf(buf[pos] % 32), DefiniteAt(buf, pos, text).value);
      var cs := ChunkTreesAt(buf, p, text).value;
      ChunkFromReads(buf, pos, text);
      ChunksFromReads(buf, p, text);
      var all := [c] + cs;
      assert all[0] == c && all[1..] == cs;
      assert EncodeChunks(text, all) + [BREAK] == EncodeChunk(text, c) + (EncodeChunks(text, cs) + [BREAK]);
      AtConcat(buf, pos, EncodeChunk(text, c), EncodeChunks(text, cs) + [BREAK]);
    }
  }

  /** Whatever is accepted is the encoding of the valid item returned. */
  lemma {:induction false} ItemFromReads(buf: bytes, pos: nat)
    requires ItemAt(buf, pos).Parsed?
    ensures var r := ItemAt(buf, pos);
            Valid(r.value) && At(buf, pos, Encode(r.value)) && r.pos == pos + |Encode(r.value)|
    decreases |buf| - pos, 0
  {
    hide At, Head, UnsignedAt, ChunkTreesAt, ItemsToBreakAt, ItemsAt, EncodeChunks, EncodeAll, Utf8, PrimAt;
    var major, info := buf[pos] / 32, buf[pos] % 32;
    var x := ItemAt(buf, pos).value;
    if info == 31 {
      AtByte(buf, pos, buf[pos]);
      if major < 4 {
        ChunksFromReads(buf, pos + 1, major == 3);
        assert Encode(x) == [buf[pos]] + (EncodeChunks(x.text, x.chunks) + [BREAK]);
        AtConcat(buf, pos, [buf[pos]], EncodeChunks(x.text, x.chunks) + [BREAK]);
      } else {
        ItemsToBreakFromReads(buf, pos + 1);
        assert Encode(x) == [buf[pos]] + (EncodeAll(x.items) + [BREAK]);
        AtConcat(buf, pos, [buf[pos]], EncodeAll(x.items) + [BREAK]);
      }
    } else {
      if major == 7 {
        PrimIsArgument(buf, pos);
      }
      HeadFromReads(buf, pos);
      var r := UnsignedAt(buf, pos + 1, info);
      var h := Head(major, WidthOf(info), r.value);
      if 2 <= major < 4 {
        StrFromReads(buf, pos);
      } else if 4 <= major < 6 {
        ItemsFromReads(buf, r.pos, |x.items|);
        AtConcat(buf, pos, h, EncodeAll(x.items));
      } else if major == 6 {
        ItemFromReads(buf, r.pos);
        AtConcat(buf, pos, h, Encode(x.content));
      }
    }
  }

  lemma {:induction false} StrFromReads(buf: bytes, pos: nat)
    requires ItemAt(buf, pos).Parsed? && 2 <= buf[pos] / 32 < 4 && buf[pos] % 32 != 31
    ensures var r := ItemAt(buf, pos);
            Valid(r.value) && At(buf, pos, Encode(r.value)) && r.pos == pos + |Encode(r.value)|
  {
    ChunkFromReads(buf, pos, buf[pos] / 32 == 3);
  }

  lemma {:induction false} ItemsFromReads(buf: bytes, pos: nat, k: nat)
    requires pos <= |buf| && ItemsAt(buf, pos, k).Parsed?
    ensures var r := ItemsAt(buf, pos, k);
            ValidAll(r.value) && At(buf, pos, EncodeAll(r.value)) && r.pos == pos + |EncodeAll(r.value)|
    decreases |buf| - pos, 1
  {
    hide ItemAt, Encode;
    if k > 0 {
      var h := ItemAt(buf, pos);
      var t := ItemsAt(buf, h.pos, k - 1);
      ItemFromReads(buf, pos);
      ItemsFromReads(buf, h.pos, k - 1);
      var all := [h.value] + t.value;
      assert all[0] == h.value && all[1..] == t.value;
      AtConcat(buf, pos, Encode(h.value), EncodeAll(t.value));
    }
  }

  lemma {:induction false} ItemsToBreakFromReads(buf: bytes, pos: nat)
    requires ItemsToBreakAt(buf, pos).Parsed?
    ensures var r := ItemsToBreakAt(buf, pos);
            ValidAll(r.value) && At(buf, pos, EncodeAll(r.value) + [BREAK]) && r.pos == pos + |EncodeAll(r.value)| + 1
    decreases |buf| - pos, 1
  {
    hide ItemAt, Encode, At;
    if buf[pos] == BREAK {
      AtByte(buf, pos, BREAK);
      assert EncodeAll([]) + [BREAK] == [BREAK];
    } else {
      var h := ItemAt(buf, pos);
      var t := ItemsToBreakAt(buf, h.pos);
      ItemFromReads(buf, pos);
      ItemsToBreakFromReads(buf, h.pos);
      var all := [h.value] + t.value;
      assert all[0] == h.value && all[1..] == t.value;
      assert EncodeAll(all) + [BREAK] == Encode(h.value) + (EncodeAll(t.value) + [BREAK]);
      AtConcat(buf, pos, Encode(h.value), EncodeAll(t.value) + [BREAK]);
    }
  }

  /** The decoder accepts an input exactly when it starts with the encoding of a valid item. */
  lemma {:induction false} AcceptsExactlyEncodings(buf: bytes, pos: nat, x: Item, p: nat)
    ensures ItemAt(buf, pos) == Parsed(x, p) <==> Valid(x) && At(buf, pos, Encode(x)) && p == pos + |Encode(x)|
  {
    if ItemAt(buf, pos) == Parsed(x, p) {
      ItemFromReads(buf, pos);
    }
    if Valid(x) && At(buf, pos, Encode(x)) {
      DecodesItem(buf, pos, x);
    }
  }

  /** No encoding is a proper prefix of another, and different trees have different encodings. */
  lemma {:induction false} PrefixFree(x: Item, y: Item)
    requires Valid(x) && Valid(y) && Encode(x) <= Encode(y)
    ensures x == y
  {
    var buf := Encode(y);
    assert At(buf, 0, Encode(x)) && At(buf, 0, Encode(y));
    DecodesItem(buf, 0, x);
    DecodesItem(buf, 0, y);
  }
}
