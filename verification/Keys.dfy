/** The indices of derived fields: their order, their uniqueness, and the map keys they are written as. */
module Keys {
  import opened Wire
  import opened Items

  const I64_MAX: nat := 0x7fff_ffff_ffff_ffff

  type i64 = x: int | -1 - I64_MAX <= x <= I64_MAX

  function Abs(i: int): nat { if i < 0 then -i else i }

  /** The argument of the head an integer is written with. */
  function Arg(i: int): nat { if i < 0 then -1 - i else i }

  /** A key as `i64` writes it. */
  function KeyItem(i: i64): (x: Item)
    ensures Valid(x)
  {
    Num(i < 0, Preferred(Arg(i)), Arg(i))
  }

  /** The order of the sort key: first whether the index is negative, then its absolute value. */
  predicate KeyLess(a: int, b: int) {
    if (a < 0) != (b < 0) then b < 0 else Abs(a) < Abs(b)
  }

  // ----- bytewise lexicographic order -----

  predicate BytesLess(a: bytes, b: bytes) {
    b != [] && (a == [] || a[0] < b[0] || (a[0] == b[0] && BytesLess(a[1..], b[1..])))
  }

  lemma {:induction false} LessByPrefix(a: bytes, b: bytes, c: bytes, d: bytes)
    requires |a| == |b|
    ensures BytesLess(a + c, b + d) <==> BytesLess(a, b) || (a == b && BytesLess(c, d))
  {
    if a == [] {
      assert a + c == c && b + d == d;
    } else {
      LessByPrefix(a[1..], b[1..], c, d);
      assert (a + c)[1..] == a[1..] + c && (b + d)[1..] == b[1..] + d;
      assert a == b <==> a[0] == b[0] && a[1..] == b[1..] by {
        assert a == [a[0]] + a[1..] && b == [b[0]] + b[1..];
      }
    }
  }

  /** Big-endian strings of one length are ordered like the numbers. */
  lemma {:induction false} BigEndianOrder(m: nat, n: nat, k: nat)
    requires m < Pow256(k) && n < Pow256(k)
    ensures BytesLess(BigEndian(m, k), BigEndian(n, k)) <==> m < n
  {
    if k > 0 {
      BigEndianOrder(m / 256, n / 256, k - 1);
      LessByPrefix(BigEndian(m / 256, k - 1), BigEndian(n / 256, k - 1), [m % 256], [n % 256]);
      if BigEndian(m / 256, k - 1) == BigEndian(n / 256, k - 1) {
        BigEndianRoundTrip(m / 256, k - 1);
        BigEndianRoundTrip(n / 256, k - 1);
      }
    }
  }

  /** Shortest heads are ordered by major type, then by argument. */
  lemma {:induction false} HeadOrder(major: nat, m: nat, major': nat, n: nat)
    requires major < 8 && major' < 8 && m <= U64_MAX && n <= U64_MAX
    ensures BytesLess(Head(major, Preferred(m), m), Head(major', Preferred(n), n))
       <==> major < major' || (major == major' && m < n)
  {
    hide BigEndian;
    Pow256Values();
    var v, w := Preferred(m), Preferred(n);
    if major == major' && v == w {
      LessByPrefix([32 * major + v.Info(m)], [32 * major' + w.Info(n)], BigEndian(m, v.Extra()),
        BigEndian(n, w.Extra()));
      if v == Imm {
        EmptyArgument(m);
        EmptyArgument(n);
      } else {
        BigEndianOrder(m, n, v.Extra());
      }
    } else {
      assert v.Info(m) < 32 && w.Info(n) < 32;
    }
  }

  lemma {:induction false} EmptyArgument(n: nat)
    ensures BigEndian(n, 0) == []
  {
  }

  /** The sort key of an index orders indices exactly as their encoded keys are ordered byte by byte. */
  lemma {:induction false} KeyOrder(a: i64, b: i64)
    ensures KeyLess(a, b) <==> BytesLess(Encode(KeyItem(a)), Encode(KeyItem(b)))
  {
    HeadOrder(if a < 0 then 1 else 0, Arg(a), if b < 0 then 1 else 0, Arg(b));
  }

  // ----- uniqueness and arrangement of fields -----

  ghost predicate Distinct(ks: seq<int>) {
    forall i, j :: 0 <= i < j < |ks| ==> ks[i] != ks[j]
  }

  /** The count of inserted values against the size of the set decides uniqueness. */
  method CheckUniq(ks: seq<int>) returns (ok: bool)
    ensures ok <==> Distinct(ks)
  {
    var seen, ctr: nat := {}, 0;
    for i := 0 to |ks|
      invariant ctr == i && |seen| <= ctr
      invariant forall k :: k in seen <==> k in ks[..i]
      invariant |seen| == ctr <==> Distinct(ks[..i])
    {
      DistinctSnoc(ks, i);
      seen := seen + {ks[i]};
      ctr := ctr + 1;
    }
    assert ks[..|ks|] == ks;
    ok := ctr == |seen|;
  }

  lemma {:induction false} DistinctSnoc(ks: seq<int>, i: nat)
    requires i < |ks|
    ensures ks[..i + 1] == ks[..i] + [ks[i]]
    ensures Distinct(ks[..i + 1]) <==> Distinct(ks[..i]) && ks[i] !in ks[..i]
  {
    if Distinct(ks[..i + 1]) {
      forall p, q | 0 <= p < q < i ensures ks[..i][p] != ks[..i][q] {
        assert ks[..i + 1][p] != ks[..i + 1][q];
      }
      forall p | 0 <= p < i ensures ks[..i][p] != ks[i] {
        assert ks[..i + 1][p] != ks[..i + 1][i];
      }
    }
  }

  /** A field of a struct as declared: its index attribute if it has one, and whether it is skipped. */
  datatype Declared = Declared(index: Option<i64>, skip: bool)

  /** A field that takes part: its index and where it was declared. */
  datatype Placed = Placed(index: i64, pos: nat)

  function IndexOf(f: Declared): i64 {
    if f.index.Some? && !f.skip then f.index.value else I64_MAX
  }

  function Indices(ps: seq<Placed>): (ks: seq<int>)
    ensures |ks| == |ps| && forall i :: 0 <= i < |ks| ==> ks[i] == ps[i].index
  {
    seq(|ps|, i requires 0 <= i < |ps| => ps[i].index)
  }

  /** No field is refused on its own: each has an index, which is not negative under array encoding. */
  predicate Acceptable(f: Declared, transparent: bool, asArray: bool) {
    (f.skip || f.index.Some? || transparent) && (IndexOf(f) < 0 ==> !asArray)
  }

  /** Two fields that take part never share an index. */
  ghost predicate NoneShared(fs: seq<Declared>) {
    forall i, j :: 0 <= i < j < |fs| && !fs[i].skip && !fs[j].skip ==> IndexOf(fs[i]) != IndexOf(fs[j])
  }

  /** `p` is one of the fields that take part. */
  predicate TakesPart(fs: seq<Declared>, p: Placed) {
    p.pos < |fs| && !fs[p.pos].skip && p.index == IndexOf(fs[p.pos])
  }

  /** The fields that take part, each once, in any order. */
  ghost predicate Rearranges(ps: seq<Placed>, fs: seq<Declared>) {
    (forall p :: p in ps <==> TakesPart(fs, p))
    && forall i, j :: 0 <= i < j < |ps| ==> ps[i].pos != ps[j].pos
  }

  ghost predicate InKeyOrder(ps: seq<Placed>) {
    forall i, j :: 0 <= i < j < |ps| ==> !KeyLess(ps[j].index, ps[i].index)
  }

  /** The order of array encoding: by index, and none negative. */
  ghost predicate Ascending(ps: seq<Placed>) {
    (forall i, j :: 0 <= i < j < |ps| ==> ps[i].index < ps[j].index)
    && forall i :: 0 <= i < |ps| ==> ps[i].index >= 0
  }

  /** One step of sorting by key, as an insertion; which order equal keys end up in does not matter here. */
  method InsertByKey(ps: seq<Placed>, p: Placed) returns (r: seq<Placed>)
    requires InKeyOrder(ps)
    ensures InKeyOrder(r) && exists i :: 0 <= i <= |ps| && r == ps[..i] + [p] + ps[i..]
  {
    var i := |ps|;
    while i > 0 && KeyLess(p.index, ps[i - 1].index)
      invariant 0 <= i <= |ps|
      invariant forall j :: i <= j < |ps| ==> KeyLess(p.index, ps[j].index)
    {
      i := i - 1;
    }
    r := ps[..i] + [p] + ps[i..];
    forall a, b | 0 <= a < b < |r| ensures !KeyLess(r[b].index, r[a].index) {
      assert a < i ==> r[a] == ps[a];
      assert b > i ==> r[b] == ps[b - 1];
    }
  }

  lemma {:induction false} InsertedIn(ps: seq<Placed>, p: Placed, i: nat, q: Placed)
    requires i <= |ps|
    ensures q in ps[..i] + [p] + ps[i..] <==> q in ps || q == p
  {
    assert ps == ps[..i] + ps[i..];
  }

  /** One more field keeps the arrangement. */
  lemma {:induction false} OneMore(ps: seq<Placed>, fs: seq<Declared>, k: nat, r: seq<Placed>, i: nat)
    requires k < |fs| && !fs[k].skip && Rearranges(ps, fs[..k])
    requires i <= |ps| && r == ps[..i] + [Placed(IndexOf(fs[k]), k)] + ps[i..]
    ensures Rearranges(r, fs[..k + 1])
  {
    var p := Placed(IndexOf(fs[k]), k);
    forall q ensures q in r <==> TakesPart(fs[..k + 1], q) {
      InsertedIn(ps, p, i, q);
      assert q.pos < k ==> TakesPart(fs[..k + 1], q) == TakesPart(fs[..k], q);
    }
    assert forall c :: 0 <= c < |ps| ==> TakesPart(fs[..k], ps[c]);
    PositionsDiffer(ps, p, i, k);
  }

  lemma {:induction false} PositionsDiffer(ps: seq<Placed>, p: Placed, i: nat, k: nat)
    requires i <= |ps| && p.pos == k && forall c :: 0 <= c < |ps| ==> ps[c].pos < k
    requires forall a, b :: 0 <= a < b < |ps| ==> ps[a].pos != ps[b].pos
    ensures var r := ps[..i] + [p] + ps[i..]; forall a, b :: 0 <= a < b < |r| ==> r[a].pos != r[b].pos
  {
    var r := ps[..i] + [p] + ps[i..];
    forall a, b | 0 <= a < b < |r| ensures r[a].pos != r[b].pos {
      assert r[a] == if a < i then ps[a] else if a == i then p else ps[a - 1];
      assert r[b] == if b < i then ps[b] else if b == i then p else ps[b - 1];
    }
  }

  lemma {:induction false} SkippedField(ps: seq<Placed>, fs: seq<Declared>, k: nat)
    requires k < |fs| && fs[k].skip && Rearranges(ps, fs[..k])
    ensures Rearranges(ps, fs[..k + 1])
  {
    forall q ensures q in ps <==> TakesPart(fs[..k + 1], q) {
      assert q.pos < k ==> TakesPart(fs[..k + 1], q) == TakesPart(fs[..k], q);
    }
  }

  /** Distinctness does not depend on the order. */
  lemma {:induction false} SharedIndices(ps: seq<Placed>, fs: seq<Declared>)
    requires Rearranges(ps, fs)
    ensures Distinct(Indices(ps)) <==> NoneShared(fs)
  {
    if Distinct(Indices(ps)) {
      forall i, j | 0 <= i < j < |fs| && !fs[i].skip && !fs[j].skip ensures IndexOf(fs[i]) != IndexOf(fs[j]) {
        var p, q := Placed(IndexOf(fs[i]), i), Placed(IndexOf(fs[j]), j);
        assert TakesPart(fs, p) && TakesPart(fs, q);
        var a :| 0 <= a < |ps| && ps[a] == p;
        var b :| 0 <= b < |ps| && ps[b] == q;
        assert Indices(ps)[a] != Indices(ps)[b];
      }
    }
    if NoneShared(fs) {
      forall a, b | 0 <= a < b < |ps| ensures Indices(ps)[a] != Indices(ps)[b] {
        assert TakesPart(fs, ps[a]) && TakesPart(fs, ps[b]);
      }
    }
  }

  /**
    `Fields::try_from`: collect the fields that take part, sort them, and refuse duplicates. The result has exactly
    the declared fields, and their encoded keys are strictly increasing, byte by byte.
   */
  method Arrange(fs: seq<Declared>, transparent: bool, asArray: bool) returns (r: Option<seq<Placed>>)
    ensures r.Some? <==>
      && (forall i :: 0 <= i < |fs| ==> fs[i].skip || transparent || fs[i].index.Some?)
      && (forall i :: 0 <= i < |fs| ==> asArray && !fs[i].skip && fs[i].index.Some? ==> fs[i].index.value >= 0)
      && NoneShared(fs)
    ensures r.Some? ==> Rearranges(r.value, fs)
    ensures r.Some? ==> forall p | p in r.value && p.pos < |fs| && fs[p.pos].index.Some? ::
      p.index == fs[p.pos].index.value
    ensures r.Some? ==> forall i, j :: 0 <= i < j < |r.value| ==>
      BytesLess(Encode(KeyItem(r.value[i].index)), Encode(KeyItem(r.value[j].index)))
    ensures r.Some? && asArray ==> Ascending(r.value)
  {
    AcceptableMeans(fs, transparent, asArray);
    hide Encode, Rearranges, BytesLess, Distinct, NoneShared;
    var fields: seq<Placed> := [];
    NothingYet(fs[..0]);
    for k := 0 to |fs|
      invariant forall i :: 0 <= i < k ==> Acceptable(fs[i], transparent, asArray)
      invariant Rearranges(fields, fs[..k]) && InKeyOrder(fields)
    {
      if !Acceptable(fs[k], transparent, asArray) {
        return None;
      }
      if fs[k].skip {
        SkippedField(fields, fs, k);
      } else {
        ghost var before := fields;
        fields := InsertByKey(fields, Placed(IndexOf(fs[k]), k));
        ghost var i :| 0 <= i <= |before| && fields == before[..i] + [Placed(IndexOf(fs[k]), k)] + before[i..];
        OneMore(before, fs, k, fields, i);
      }
    }
    assert fs[..|fs|] == fs;
    var ok := CheckUniq(Indices(fields));
    SharedIndices(fields, fs);
    if !ok {
      return None;
    }
    StrictlyOrdered(fields, fs, transparent, asArray);
    OwnIndices(fields, fs);
    r := Some(fields);
  }

  lemma {:induction false} AcceptableMeans(fs: seq<Declared>, transparent: bool, asArray: bool)
    ensures (forall i :: 0 <= i < |fs| ==> Acceptable(fs[i], transparent, asArray)) <==>
      && (forall i :: 0 <= i < |fs| ==> fs[i].skip || transparent || fs[i].index.Some?)
      && (forall i :: 0 <= i < |fs| ==> asArray && !fs[i].skip && fs[i].index.Some? ==> fs[i].index.value >= 0)
  {
    if forall i :: 0 <= i < |fs| ==> Acceptable(fs[i], transparent, asArray) {
      forall i | 0 <= i < |fs|
        ensures fs[i].skip || transparent || fs[i].index.Some?
        ensures asArray && !fs[i].skip && fs[i].index.Some? ==> fs[i].index.value >= 0
      {
        assert Acceptable(fs[i], transparent, asArray);
      }
    }
  }

  lemma {:induction false} OwnIndices(ps: seq<Placed>, fs: seq<Declared>)
    requires Rearranges(ps, fs)
    ensures forall p | p in ps && p.pos < |fs| && fs[p.pos].index.Some? :: p.index == fs[p.pos].index.value
  {
    forall p | p in ps && p.pos < |fs| && fs[p.pos].index.Some? ensures p.index == fs[p.pos].index.value {
      assert TakesPart(fs, p);
    }
  }

  lemma {:induction false} NothingYet(fs: seq<Declared>)
    requires fs == []
    ensures Rearranges([], fs)
  {
  }

  lemma {:induction false} StrictlyOrdered(ps: seq<Placed>, fs: seq<Declared>, transparent: bool, asArray: bool)
    requires Rearranges(ps, fs) && InKeyOrder(ps) && Distinct(Indices(ps))
    requires forall i :: 0 <= i < |fs| ==> Acceptable(fs[i], transparent, asArray)
    ensures forall i, j :: 0 <= i < j < |ps| ==> BytesLess(Encode(KeyItem(ps[i].index)), Encode(KeyItem(ps[j].index)))
    ensures asArray ==> Ascending(ps)
  {
    hide Encode, BytesLess;
    forall i, j | 0 <= i < j < |ps|
      ensures KeyLess(ps[i].index, ps[j].index)
      ensures BytesLess(Encode(KeyItem(ps[i].index)), Encode(KeyItem(ps[j].index)))
    {
      assert Indices(ps)[i] != Indices(ps)[j];
      KeyOrder(ps[i].index, ps[j].index);
    }
    forall i | asArray && 0 <= i < |ps| ensures ps[i].index >= 0 {
      assert TakesPart(fs, ps[i]);
      assert Acceptable(fs[ps[i].pos], transparent, asArray);
    }
  }
}
