/** Ordinary decoding errors in derived types: they are never taken for a nil and come out where they went in. */
module DeriveErrors {
  import opened Wire
  import opened Items
  import opened Reads
  import opened Skip
  import opened Integers
  import opened ReadersOnItems
  import Encoding
  import opened Keys
  import opened Derive
  import opened DeriveDecode
  import opened DeriveMap
  import opened DeriveNested

  /** The field's decoder fails here, and not in a way that an optional field recovers from. */
  ghost predicate Fails<V>(buf: bytes, pos: nat, f: Field<V>, e: Error, p: nat) {
    f.dec(buf, pos) == Err(e, p) && (f.optional ==> !e.UnknownVariant?)
  }

  /** On any input where an optional field does not stand in front of null, its error is the field's, in its place. */
  lemma {:induction false} FieldErrors<V>(buf: bytes, pos: nat, f: Field<V>, e: Error, p: nat)
    requires Fails(buf, pos, f, e, p)
    requires f.optional ==> DatatypeAt(buf, pos).Ok? && DatatypeAt(buf, pos).value != Null
    ensures ReadField(buf, pos, f) == Err(e, p)
  {
    hide SkipAt, DatatypeAt;
  }

  /** An integer field, optional or not, refuses every item that is neither an integer nor its null. */
  lemma {:induction false} IntegerFieldRefuses(buf: bytes, pos: nat, f: Field<int>, t: Type, x: Item)
    requires IsInteger(t) && forall b: bytes, p: nat :: f.dec(b, p) == IntegerAt(b, p, t)
    requires Valid(x) && At(buf, pos, Encode(x)) && !x.Num? && (f.optional ==> x != NULL_ITEM)
    ensures DatatypeAt(buf, pos).Ok? && ReadField(buf, pos, f) == Err(TypeMismatch(DatatypeAt(buf, pos).value), pos + 1)
  {
    hide SkipAt, DatatypeAt, IntegerAt, At, Encode, Valid, ReadField;
    IntegerRefuses(buf, pos, x, t);
    DatatypeOfItem(buf, pos, x);
    FieldErrors(buf, pos, f, TypeMismatch(DatatypeAt(buf, pos).value), pos + 1);
  }

  /** An enum refuses an array of another length than two. */
  lemma {:induction false} EnumRefusesLength<V>(
    buf: bytes, pos: nat, known: set<int>, payload: (int, bytes, nat) -> Res<V>, x: Item)
    requires Valid(x) && At(buf, pos, Encode(x)) && (x.Coll? ==> x.isMap || |x.items| != 2)
    ensures EnumAt(buf, pos, known, payload).Err? && !EnumAt(buf, pos, known, payload).error.UnknownVariant?
  {
    hide At, Encode, LengthAt, DatatypeAt, IntegerAt;
    LengthReads(buf, pos, x, false);
    DatatypeReads(buf, pos, x);
  }

  // ----- array encoding -----

  /** All fields below index `k` are read. */
  ghost predicate FineBelow<V(!new)>(ws: seq<Slot>, rs: seq<Field<V>>, sem: (int, Item) -> Option<V>, k: nat)
    requires ValidSlots(ws)
  {
    && DistinctFields(rs) && k < Count(ws)
    && forall i :: 0 <= i < k ==> SatisfiedAt(ws, rs, sem, i) && CompatibleAt(ws, rs, sem, i)
  }

  lemma {:induction false} ElementsFailAs<V(!new)>(
    buf: bytes, pos: nat, ws: seq<Slot>, rs: seq<Field<V>>, sem: (int, Item) -> Option<V>, i: nat, k: nat, at: nat,
    e: Error, p: nat)
    requires ValidSlots(ws) && |buf| <= U64_MAX && FineBelow(ws, rs, sem, k) && i <= k
    requires ValidAll(Elements(ws)[i..]) && At(buf, pos, EncodeAll(Elements(ws)[i..])) && ValidAll(Elements(ws)[k..])
    requires at + |EncodeAll(Elements(ws)[k..])| == pos + |EncodeAll(Elements(ws)[i..])|
    requires Round(buf, at, rs, k, LocalsAt(ws, rs, sem, k)) == Err(e, p)
    ensures ElementsFrom(buf, pos, rs, i, Count(ws), LocalsAt(ws, rs, sem, i)) == Err(e, p)
    ensures ElementsToBreak(buf, pos, rs, i, LocalsAt(ws, rs, sem, i)) == Err(e, p)
    decreases k - i
  {
    hide Encode, Valid, At, EncodeAll, Round, SatisfiedAt, CompatibleAt, ElementsFrom, ElementsToBreak;
    var x := OrNull(Lookup(ws, i));
    ElementFacts(buf, pos, ws, i);
    NextElement(buf, pos, rs, i, Count(ws), LocalsAt(ws, rs, sem, i));
    ElementsGoOn(buf, pos, x, rs, i, LocalsAt(ws, rs, sem, i));
    if i < k {
      ElementRound(buf, pos, ws, rs, sem, i);
      ElementsFailAs(buf, pos + |Encode(x)|, ws, rs, sem, i + 1, k, at, e, p);
    }
  }

  /**
    A struct whose first field that fails is at index `k` fails with that error, where the field does. The field's
    element stands at `at`; a gap or nil written for it is null, which only a field that insists on a value decodes.
   */
  lemma {:induction false} StructErrors<V(!new)>(
    buf: bytes, pos: nat, ws: seq<Slot>, rs: seq<Field<V>>, sem: (int, Item) -> Option<V>, x: Item, k: nat, at: nat,
    e: Error, p: nat)
    requires ValidSlots(ws) && |buf| <= U64_MAX && FineBelow(ws, rs, sem, k)
    requires x == StructItem(ws) || x == CollIndef(false, Elements(ws))
    requires Valid(x) && At(buf, pos, Encode(x)) && Valid(OrNull(Lookup(ws, k)))
    requires at + |Encode(OrNull(Lookup(ws, k)))| + Behind(ws, k, x.CollIndef?) == pos + |Encode(x)|
    requires FieldAt(rs, k).Some? && (rs[FieldAt(rs, k).value].optional ==> Lookup(ws, k).Some?)
    requires Fails(buf, at, rs[FieldAt(rs, k).value], e, p)
    ensures StructAt(buf, pos, rs) == Err(e, p)
  {
    hide At, Encode, Valid, ElementsFrom, ElementsToBreak, EncodeAll, SatisfiedAt, CompatibleAt, LengthAt, Fails, Round;
    var xs := Elements(ws);
    LaterValid(ws, k);
    ElementsSplit(ws, k);
    var start := if x.Coll? then pos + 1 + x.w.Extra() else pos + 1;
    assert xs[0..] == xs && LocalsAt(ws, rs, sem, 0) == Initials(rs);
    if x.Coll? {
      CollStarts(buf, pos, x);
    } else {
      CollIndefStarts(buf, pos, x);
    }
    ElementStands(buf, start, ws, k, at);
    ElementErrors(buf, at, ws, rs, k, LocalsAt(ws, rs, sem, k), e, p);
    ElementsFailAs(buf, start, ws, rs, sem, 0, k, at, e, p);
  }

  lemma {:induction false} ElementsSplit(ws: seq<Slot>, k: nat)
    requires ValidSlots(ws) && k < Count(ws)
    ensures var xs := Elements(ws);
            ValidAll(xs) && ValidAll(xs[k..]) && ValidAll(xs[k + 1..]) && Valid(xs[k])
            && EncodeAll(xs[k..]) == Encode(xs[k]) + EncodeAll(xs[k + 1..])
            && ValidAll(xs[..k]) && EncodeAll(xs) == EncodeAll(xs[..k]) + EncodeAll(xs[k..])
  {
    hide Encode, Valid;
    var xs := Elements(ws);
    AllElementsValid(ws);
    Encoding.Rest(xs, k);
    assert xs[k..][0] == xs[k] && xs[k..][1..] == xs[k + 1..];
  }

  /** Where element `k` stands, its encoding does. */
  lemma {:induction false} ElementStands(buf: bytes, start: nat, ws: seq<Slot>, k: nat, at: nat)
    requires ValidSlots(ws) && k < Count(ws) && ValidAll(Elements(ws)) && At(buf, start, EncodeAll(Elements(ws)))
    requires ValidAll(Elements(ws)[k..]) && at + |EncodeAll(Elements(ws)[k..])| == start + |EncodeAll(Elements(ws))|
    ensures Valid(OrNull(Lookup(ws, k))) && At(buf, at, Encode(OrNull(Lookup(ws, k))))
  {
    hide At, Encode, Valid, EncodeAll;
    ElementsSplit(ws, k);
    var xs := Elements(ws);
    AtConcat(buf, start, EncodeAll(xs[..k]), EncodeAll(xs[k..]));
    AtConcat(buf, at, Encode(xs[k]), EncodeAll(xs[k + 1..]));
  }

  lemma {:induction false} ElementErrors<V(!new)>(
    buf: bytes, at: nat, ws: seq<Slot>, rs: seq<Field<V>>, k: nat, locals: seq<Local<V>>, e: Error, p: nat)
    requires ValidSlots(ws) && |locals| == |rs| && FieldAt(rs, k).Some?
    requires Valid(OrNull(Lookup(ws, k))) && At(buf, at, Encode(OrNull(Lookup(ws, k))))
    requires rs[FieldAt(rs, k).value].optional ==> Lookup(ws, k).Some?
    requires Fails(buf, at, rs[FieldAt(rs, k).value], e, p)
    ensures Round(buf, at, rs, k, locals) == Err(e, p)
  {
    hide At, Encode, Valid, Fails, ReadField, DatatypeAt;
    LookupValid(ws, k);
    DatatypeOfItem(buf, at, OrNull(Lookup(ws, k)));
    FieldErrors(buf, at, rs[FieldAt(rs, k).value], e, p);
  }

  // ----- map encoding -----

  /** All slots before slot `k` are read. */
  ghost predicate PairsFineBefore<V(!new)>(ws: seq<Slot>, rs: seq<Field<V>>, sem: (int, Item) -> Option<V>, k: nat)
    requires ValidSlots(ws)
  {
    && DistinctFields(rs) && Unique(ws) && k < |ws| && ws[k].value.Some?
    && ValidSlots(ws[..k]) && EachUnderstood(ws[..k], rs, sem) && forall i :: 0 <= i < k ==> TakenBy(ws[i], rs, sem)
  }

  lemma {:induction false} EarlierPair<V(!new)>(
    buf: bytes, pos: nat, ws: seq<Slot>, rs: seq<Field<V>>, sem: (int, Item) -> Option<V>, i: nat, k: nat)
    requires ValidSlots(ws) && |buf| <= U64_MAX && PairsFineBefore(ws, rs, sem, k) && i < k
    requires ws[i].value.Some? && At(buf, pos, Encode(KeyItem(ws[i].index)))
    requires At(buf, pos + |Encode(KeyItem(ws[i].index))|, Encode(ws[i].value.value))
    ensures PairRound(buf, pos, rs, LocalsAfter(ws[..i], rs, sem))
         == Ok(LocalsAfter(ws[..i + 1], rs, sem), pos + |Encode(KeyItem(ws[i].index))| + |Encode(ws[i].value.value)|)
  {
    hide At, Encode, Valid, PairRound, EachUnderstood, TakenBy;
    var pre := ws[..k];
    assert pre[..i] == ws[..i] && pre[..i + 1] == ws[..i + 1] && pre[i] == ws[i];
    PairReads(buf, pos, pre, rs, sem, i);
  }

  /** The value of slot `k` stands at `at`, behind its key and in front of the later pairs. */
  ghost predicate ValueStands(buf: bytes, ws: seq<Slot>, k: nat, at: nat, end: nat)
    requires ValidSlots(ws) && k < |ws| && ws[k].value.Some?
  {
    LaterPairsValid(ws, k);
    at + |Encode(ws[k].value.value)| + |EncodeAll(Entries(ws[k + 1..]))| == end
  }

  lemma {:induction false} PairsFailAs<V(!new)>(
    buf: bytes, pos: nat, ws: seq<Slot>, rs: seq<Field<V>>, sem: (int, Item) -> Option<V>, i: nat, k: nat, at: nat,
    e: Error, p: nat)
    requires ValidSlots(ws) && |buf| <= U64_MAX && PairsFineBefore(ws, rs, sem, k) && i <= k
    requires ValidAll(Entries(ws[i..])) && At(buf, pos, EncodeAll(Entries(ws[i..])))
    requires ValueStands(buf, ws, k, at, pos + |EncodeAll(Entries(ws[i..]))|)
    requires FieldAt(rs, ws[k].index).Some? && Fails(buf, at, rs[FieldAt(rs, ws[k].index).value], e, p)
    ensures PairsFrom(buf, pos, rs, Present(ws[i..]), LocalsAfter(ws[..i], rs, sem)) == Err(e, p)
    ensures PairsToBreak(buf, pos, rs, LocalsAfter(ws[..i], rs, sem)) == Err(e, p)
    decreases k - i
  {
    hide At, Encode, Valid, PairRound, EachUnderstood, TakenBy, EncodeAll, Entries, Present, PairsToBreak, Fails;
    PairFacts(buf, pos, ws, i);
    if ws[i].value.None? {
      NilPasses(ws, rs, sem, i);
      PairsFailAs(buf, pos, ws, rs, sem, i + 1, k, at, e, p);
    } else {
      var key, locals := KeyItem(ws[i].index), LocalsAfter(ws[..i], rs, sem);
      PairsGoOn(buf, pos, key, rs, locals);
      if i == k {
        PairErrors(buf, pos, ws, rs, k, locals, e, p);
      } else {
        EarlierPair(buf, pos, ws, rs, sem, i, k);
        PairsFailAs(buf, pos + |Encode(key)| + |Encode(ws[i].value.value)|, ws, rs, sem, i + 1, k, at, e, p);
      }
    }
  }

  lemma {:induction false} PairErrors<V(!new)>(
    buf: bytes, pos: nat, ws: seq<Slot>, rs: seq<Field<V>>, k: nat, locals: seq<Local<V>>, e: Error, p: nat)
    requires ValidSlots(ws) && k < |ws| && ws[k].value.Some? && |locals| == |rs|
    requires At(buf, pos, Encode(KeyItem(ws[k].index)))
    requires At(buf, pos + |Encode(KeyItem(ws[k].index))|, Encode(ws[k].value.value))
    requires FieldAt(rs, ws[k].index).Some?
    requires Fails(buf, pos + |Encode(KeyItem(ws[k].index))|, rs[FieldAt(rs, ws[k].index).value], e, p)
    ensures PairRound(buf, pos, rs, locals) == Err(e, p)
  {
    hide At, Encode, Valid, IntegerAt, ReadField, DatatypeAt, Fails;
    ReadsWhatFits(buf, pos, KeyItem(ws[k].index), I64);
    var at := pos + |Encode(KeyItem(ws[k].index))|;
    DatatypeOfItem(buf, at, ws[k].value.value);
    FieldErrors(buf, at, rs[FieldAt(rs, ws[k].index).value], e, p);
  }

  /** A map-encoded struct whose first slot that fails is slot `k` fails with that error, where the field does. */
  lemma {:induction false} MapErrors<V(!new)>(
    buf: bytes, pos: nat, ws: seq<Slot>, rs: seq<Field<V>>, sem: (int, Item) -> Option<V>, x: Item, k: nat, at: nat,
    e: Error, p: nat)
    requires ValidSlots(ws) && |buf| <= U64_MAX && |ws| <= MAX_FIELDS && PairsFineBefore(ws, rs, sem, k)
    requires (x == MapItem(ws) || x == CollIndef(true, Entries(ws))) && Valid(x) && At(buf, pos, Encode(x))
    requires ValueStands(buf, ws, k, at, pos + |Encode(x)| - if x.CollIndef? then 1 else 0)
    requires FieldAt(rs, ws[k].index).Some? && Fails(buf, at, rs[FieldAt(rs, ws[k].index).value], e, p)
    ensures MapStructAt(buf, pos, rs) == Err(e, p)
  {
    hide At, Encode, Valid, PairsFrom, PairsToBreak, EncodeAll, EachUnderstood, LengthAt, Entries, Present, LocalsAfter,
      Announced, TakenBy, Fails;
    LaterPairsValid(ws, k);
    BeforeAll(ws, rs, sem);
    if x.Coll? {
      PairsAnnounced(ws);
      CollStarts(buf, pos, x);
      PairsFailAs(buf, pos + 1 + x.w.Extra(), ws, rs, sem, 0, k, at, e, p);
    } else {
      CollIndefStarts(buf, pos, x);
      PairsFailAs(buf, pos + 1, ws, rs, sem, 0, k, at, e, p);
    }
  }
}
