/**
  Derived types inside derived types: enums and structs as fields, what carries over to the type around them, and
  where recovery from an unknown enum variant leaves the decoder.
 */
module DeriveNested {
  import opened Wire
  import opened Items
  import opened Reads
  import opened Skip
  import opened Integers
  import opened Encoding
  import opened Keys
  import opened Derive
  import opened DeriveDecode
  import opened DeriveMap

  // ----- enums -----

  /** The generated decoder of an ordinary enum: two elements, of which the first is the variant's index. */
  function EnumAt<V>(buf: bytes, pos: nat, known: set<int>, payload: (int, bytes, nat) -> Res<V>): Res<V> {
    match LengthAt(buf, pos, 4)
    case Err(e, p) => Err(e, p)
    case Ok(n, p) =>
      if n != Some(2) then Err(Message, p)
      else match IntegerAt(buf, p, I64)
        case Err(e, q) => Err(e, q)
        case Ok(i, q) => if i in known then payload(i, buf, q) else Err(UnknownVariant(i), q)
  }

  /** The type of the field is this enum. */
  ghost predicate IsEnum<V(!new)>(f: Field<V>, known: set<int>, payload: (int, bytes, nat) -> Res<V>) {
    forall buf: bytes, pos: nat :: f.dec(buf, pos) == EnumAt(buf, pos, known, payload)
  }

  /** An enum value as the encoder writes it. */
  function EnumItem(w: Width, index: Item, content: Item): Item {
    Coll(false, w, [index, content])
  }

  ghost predicate ValidEnum(w: Width, index: Item, content: Item) {
    index.Num? && Valid(EnumItem(w, index, content)) && InRange(I64, Denotes(index)) && Valid(content)
  }

  /** A variant the reader does not know leaves the decoder in front of exactly one item, which ends the enum. */
  lemma {:induction false} UnknownVariantIsRecoverable<V(!new)>(
    f: Field<V>, known: set<int>, payload: (int, bytes, nat) -> Res<V>, w: Width, index: Item, content: Item)
    requires IsEnum(f, known, payload) && ValidEnum(w, index, content) && Denotes(index) !in known
    ensures RejectsNull(f) && Understands(f, EnumItem(w, index, content), None)
  {
    hide At, Encode, LengthAt, IntegerAt;
    NullIsNoEnum(f, known, payload);
    var x := EnumItem(w, index, content);
    forall buf: bytes, pos: nat | |buf| <= U64_MAX && At(buf, pos, Encode(x))
      ensures UnknownIn(f.dec(buf, pos), buf, pos + |Encode(x)|)
    {
      EnumParts(buf, pos, w, index, content);
      var p := pos + 1 + w.Extra();
      ReadsWhatFits(buf, p, index, I64);
      assert f.dec(buf, pos) == Err(UnknownVariant(Denotes(index)), p + |Encode(index)|);
    }
  }

  /** A variant the reader knows is understood if its payload is; `g` has the payload's decoder. */
  lemma {:induction false} KnownVariantIsUnderstood<V(!new)>(
    f: Field<V>, known: set<int>, payload: (int, bytes, nat) -> Res<V>, g: Field<V>,
    w: Width, index: Item, content: Item, v: V)
    requires IsEnum(f, known, payload) && ValidEnum(w, index, content) && Denotes(index) in known
    requires forall buf: bytes, pos: nat :: g.dec(buf, pos) == payload(Denotes(index), buf, pos)
    requires Understands(g, content, Some(v))
    ensures RejectsNull(f) && Understands(f, EnumItem(w, index, content), Some(v))
  {
    hide At, Encode, LengthAt, IntegerAt, EnumAt;
    NullIsNoEnum(f, known, payload);
    var x := EnumItem(w, index, content);
    forall buf: bytes, pos: nat | |buf| <= U64_MAX && At(buf, pos, Encode(x))
      ensures f.dec(buf, pos) == Ok(v, pos + |Encode(x)|)
    {
      var p := PayloadReads(buf, pos, f, known, payload, g, w, index, content);
    }
  }

  /** The enum is decoded as its payload is, which stands at its end. */
  lemma {:induction false} PayloadReads<V(!new)>(
    buf: bytes, pos: nat, f: Field<V>, known: set<int>, payload: (int, bytes, nat) -> Res<V>, g: Field<V>,
    w: Width, index: Item, content: Item) returns (p: nat)
    requires IsEnum(f, known, payload) && ValidEnum(w, index, content) && Denotes(index) in known
    requires forall buf: bytes, pos: nat :: g.dec(buf, pos) == payload(Denotes(index), buf, pos)
    requires At(buf, pos, Encode(EnumItem(w, index, content)))
    ensures At(buf, p, Encode(content)) && p + |Encode(content)| == pos + |Encode(EnumItem(w, index, content))|
    ensures f.dec(buf, pos) == g.dec(buf, p) && |Encode(content)| <= |Encode(EnumItem(w, index, content))|
  {
    hide At, Encode, LengthAt, IntegerAt;
    EnumParts(buf, pos, w, index, content);
    ReadsWhatFits(buf, pos + 1 + w.Extra(), index, I64);
    p := pos + 1 + w.Extra() + |Encode(index)|;
  }

  lemma {:induction false} NullIsNoEnum<V(!new)>(f: Field<V>, known: set<int>, payload: (int, bytes, nat) -> Res<V>)
    requires IsEnum(f, known, payload)
    ensures RejectsNull(f)
  {
    forall buf: bytes, pos: nat | pos < |buf| && buf[pos] == NULL ensures f.dec(buf, pos).Err? {
      NoContainer(buf, pos);
    }
  }

  lemma {:induction false} NoContainer(buf: bytes, pos: nat)
    requires pos < |buf| && buf[pos] == NULL
    ensures LengthAt(buf, pos, 4).Err? && LengthAt(buf, pos, 5).Err?
  {
    assert buf[pos] / 32 == 7;
  }

  lemma {:induction false} EnumParts(buf: bytes, pos: nat, w: Width, index: Item, content: Item)
    requires Valid(EnumItem(w, index, content)) && At(buf, pos, Encode(EnumItem(w, index, content)))
    ensures Valid(index) && Valid(content)
    ensures var p := pos + 1 + w.Extra();
            LengthAt(buf, pos, 4) == Ok(Some(2), p) && At(buf, p, Encode(index))
              && At(buf, p + |Encode(index)|, Encode(content))
            && p + |Encode(index)| + |Encode(content)| == pos + |Encode(EnumItem(w, index, content))|
  {
    hide At, Encode, LengthAt;
    EncodePair(index, content);
    CollStarts(buf, pos, EnumItem(w, index, content));
    AtConcat(buf, pos + 1 + w.Extra(), Encode(index), Encode(content));
  }

  // ----- structs as fields -----

  /** The type of the field is a struct with these fields, read from an array or a map. */
  ghost predicate IsStruct<V(!new), W(!new)>(
    f: Field<V>, asMap: bool, rs: seq<Field<W>>, make: seq<Option<W>> -> V)
  {
    forall buf: bytes, pos: nat ::
      f.dec(buf, pos) == MapRes(if asMap then MapStructAt(buf, pos, rs) else StructAt(buf, pos, rs), make)
  }

  lemma {:induction false} NullIsNoStruct<V(!new), W(!new)>(
    f: Field<V>, asMap: bool, rs: seq<Field<W>>, make: seq<Option<W>> -> V)
    requires IsStruct(f, asMap, rs, make)
    ensures RejectsNull(f)
  {
    forall buf: bytes, pos: nat | pos < |buf| && buf[pos] == NULL ensures f.dec(buf, pos).Err? {
      NoContainer(buf, pos);
    }
  }

  /** What the reader should get for each field. */
  function WantedAll<V>(ws: seq<Slot>, rs: seq<Field<V>>, sem: (int, Item) -> Option<V>): (vs: seq<Option<V>>)
    ensures |vs| == |rs| && forall j :: 0 <= j < |rs| ==> vs[j] == Wanted(ws, rs[j], sem)
  {
    seq(|rs|, j requires 0 <= j < |rs| => Wanted(ws, rs[j], sem))
  }

  /**
    A struct that is itself a field, read under another schema than it was written with, is understood if every field
    its reader insists on is. So compatibility carries over from the fields to the struct around them, at any depth.
   */
  lemma {:induction false} StructIsUnderstood<V(!new), W(!new)>(
    f: Field<V>, ws: seq<Slot>, rs: seq<Field<W>>, sem: (int, Item) -> Option<W>, make: seq<Option<W>> -> V)
    requires IsStruct(f, false, rs, make) && Sorted(ws) && ValidSlots(ws) && Compatible(ws, rs, sem)
    requires forall j :: 0 <= j < |rs| ==> Satisfied(ws, rs[j], sem)
    ensures RejectsNull(f)
    ensures Valid(StructItem(ws)) && Understands(f, StructItem(ws), Some(make(WantedAll(ws, rs, sem))))
  {
    hide At, Encode, Valid, StructAt, MapStructAt, Compatible, ValidSlots, Sorted;
    NullIsNoStruct(f, false, rs, make);
    StructIsValid(ws);
    var x := StructItem(ws);
    forall buf: bytes, pos: nat | |buf| <= U64_MAX && At(buf, pos, Encode(x))
      ensures f.dec(buf, pos) == Ok(make(WantedAll(ws, rs, sem)), pos + |Encode(x)|)
    {
      ReadsAcrossSchemas(buf, pos, ws, rs, sem, x);
      assert StructAt(buf, pos, rs).value == WantedAll(ws, rs, sem);
    }
  }

  /** The same for a map-encoded struct. */
  lemma {:induction false} MapStructIsUnderstood<V(!new), W(!new)>(
    f: Field<V>, ws: seq<Slot>, rs: seq<Field<W>>, sem: (int, Item) -> Option<W>, make: seq<Option<W>> -> V)
    requires IsStruct(f, true, rs, make) && Unique(ws) && ValidSlots(ws) && |ws| <= MAX_FIELDS && Readable(ws, rs, sem)
    requires forall j :: 0 <= j < |rs| ==> Satisfied(ws, rs[j], sem)
    ensures RejectsNull(f)
    ensures Valid(MapItem(ws)) && Understands(f, MapItem(ws), Some(make(WantedAll(ws, rs, sem))))
  {
    hide At, Encode, Valid, StructAt, MapStructAt, Readable, ValidSlots, Unique;
    NullIsNoStruct(f, true, rs, make);
    MapIsValid(ws);
    var x := MapItem(ws);
    forall buf: bytes, pos: nat | |buf| <= U64_MAX && At(buf, pos, Encode(x))
      ensures f.dec(buf, pos) == Ok(make(WantedAll(ws, rs, sem)), pos + |Encode(x)|)
    {
      MapReadsAcrossSchemas(buf, pos, ws, rs, sem, x);
      assert MapStructAt(buf, pos, rs).value == WantedAll(ws, rs, sem);
    }
  }

  // ----- a unit variant that gets fields -----

  /** A reader that knows a variant as a unit passes over whatever fields it has been given since. */
  lemma {:induction false} UnitReadsFields<V(!new)>(
    f: Field<V>, known: set<int>, payload: (int, bytes, nat) -> Res<V>, unit: V, w: Width, index: Item, content: Item)
    requires IsEnum(f, known, payload) && ValidEnum(w, index, content) && Denotes(index) in known
    requires forall buf: bytes, pos: nat :: payload(Denotes(index), buf, pos) == MapRes(SkipAt(buf, pos), _ => unit)
    ensures Understands(f, EnumItem(w, index, content), Some(unit))
  {
    hide SkipAt, At, Encode, Valid, EnumAt;
    var g := Field(0, false, (buf, pos) => payload(Denotes(index), buf, pos));
    forall buf: bytes, pos: nat | |buf| <= U64_MAX && At(buf, pos, Encode(content))
      ensures g.dec(buf, pos) == Ok(unit, pos + |Encode(content)|)
    {
      SkipsItem(buf, pos, content);
    }
    KnownVariantIsUnderstood(f, known, payload, g, w, index, content, unit);
  }

  /** A reader for which all fields of a variant are optional reads it, all of them nil, where a unit was written. */
  lemma {:induction false} FieldsReadUnit<V(!new), W(!new)>(
    f: Field<V>, known: set<int>, payload: (int, bytes, nat) -> Res<V>, g: Field<V>, asMap: bool,
    rs: seq<Field<W>>, make: seq<Option<W>> -> V, w: Width, index: Item)
    requires var unit := if asMap then MapItem([]) else StructItem([]);
             IsEnum(f, known, payload) && ValidEnum(w, index, unit) && Denotes(index) in known
    requires forall buf: bytes, pos: nat :: g.dec(buf, pos) == payload(Denotes(index), buf, pos)
    requires IsStruct(g, asMap, rs, make) && (forall j :: 0 <= j < |rs| ==> rs[j].optional)
    requires DistinctFields(rs)
    ensures var unit := if asMap then MapItem([]) else StructItem([]);
            Understands(f, EnumItem(w, index, unit), Some(make(seq(|rs|, _ => None))))
  {
    hide IsEnum, IsStruct, Understands;
    var sem: (int, Item) -> Option<W> := (_, _) => None;
    assert WantedAll([], rs, sem) == seq(|rs|, _ => None);
    var unit := if asMap then MapItem([]) else StructItem([]);
    if asMap {
      MapStructIsUnderstood(g, [], rs, sem, make);
    } else {
      StructIsUnderstood(g, [], rs, sem, make);
    }
    KnownVariantIsUnderstood(f, known, payload, g, w, index, unit, make(seq(|rs|, _ => None)));
  }

  // ----- recovery below the optional field -----

  /** The decoder gives up on an unknown variant in `x`, in front of one item, with `left` bytes of `x` behind that. */
  ghost predicate GivesUp<V(!new)>(f: Field<V>, x: Item, left: nat)
    requires Valid(x)
  {
    left <= |Encode(x)|
    && forall buf: bytes, pos: nat | |buf| <= U64_MAX && At(buf, pos, Encode(x)) ::
      UnknownIn(f.dec(buf, pos), buf, pos + |Encode(x)| - left)
  }

  /** With nothing left it is a variant that can be recovered from, as an enum's own unknown variant is. */
  lemma {:induction false} NothingLeftIsUnknown<V(!new)>(f: Field<V>, x: Item)
    requires Valid(x)
    ensures GivesUp(f, x, 0) <==> Understands(f, x, None)
  {
    hide UnknownIn, At, Encode;
  }

  /** An enum gives up as the payload of a variant it knows does. */
  lemma {:induction false} KnownVariantGivesUp<V(!new)>(
    f: Field<V>, known: set<int>, payload: (int, bytes, nat) -> Res<V>, g: Field<V>,
    w: Width, index: Item, content: Item, left: nat)
    requires IsEnum(f, known, payload) && ValidEnum(w, index, content) && Denotes(index) in known
    requires forall buf: bytes, pos: nat :: g.dec(buf, pos) == payload(Denotes(index), buf, pos)
    requires GivesUp(g, content, left)
    ensures GivesUp(f, EnumItem(w, index, content), left)
  {
    hide At, Encode, EnumAt, UnknownIn;
    var x := EnumItem(w, index, content);
    EnumIsLonger(w, index, content);
    forall buf: bytes, pos: nat | |buf| <= U64_MAX && At(buf, pos, Encode(x))
      ensures UnknownIn(f.dec(buf, pos), buf, pos + |Encode(x)| - left)
    {
      var p := PayloadReads(buf, pos, f, known, payload, g, w, index, content);
    }
  }

  lemma {:induction false} EnumIsLonger(w: Width, index: Item, content: Item)
    requires Valid(EnumItem(w, index, content)) && Valid(content)
    ensures |Encode(content)| <= |Encode(EnumItem(w, index, content))|
  {
    hide At, LengthAt;
    var b := Encode(EnumItem(w, index, content));
    AtWhole(b);
    EnumParts(b, 0, w, index, content);
  }

  lemma {:induction false} AtWhole(b: bytes)
    ensures At(b, 0, b)
  {
  }

  /**
    The first field its reader insists on and does not get, because of an unknown variant inside, is at index `k`, and
    its decoder leaves `left` bytes of its element behind.
   */
  ghost predicate FirstUnknown<V(!new)>(
    ws: seq<Slot>, rs: seq<Field<V>>, sem: (int, Item) -> Option<V>, k: nat, left: nat)
    requires ValidSlots(ws)
  {
    && DistinctFields(rs) && k < Count(ws) && FieldAt(rs, k).Some? && !rs[FieldAt(rs, k).value].optional
    && Lookup(ws, k).Some? && (LookupValid(ws, k); GivesUp(rs[FieldAt(rs, k).value], Lookup(ws, k).value, left))
    && forall i :: 0 <= i < k ==> SatisfiedAt(ws, rs, sem, i) && CompatibleAt(ws, rs, sem, i)
  }

  /** A field that insists on a value fails where its decoder does. */
  lemma {:induction false} FieldFails<V(!new)>(
    buf: bytes, pos: nat, rs: seq<Field<V>>, i: int, j: nat, locals: seq<Local<V>>, x: Item, left: nat)
    requires FieldAt(rs, i) == Some(j) && !rs[j].optional && |locals| == |rs| && |buf| <= U64_MAX
    requires Valid(x) && At(buf, pos, Encode(x)) && GivesUp(rs[j], x, left)
    ensures UnknownIn(Round(buf, pos, rs, i, locals), buf, pos + |Encode(x)| - left)
  {
    hide SkipAt, DatatypeAt, At, Encode, Valid;
    assert UnknownIn(rs[j].dec(buf, pos), buf, pos + |Encode(x)| - left);
  }

  lemma {:induction false} ElementsFail<V(!new)>(
    buf: bytes, pos: nat, ws: seq<Slot>, rs: seq<Field<V>>, sem: (int, Item) -> Option<V>, i: nat, k: nat, left: nat,
    end: nat)
    requires ValidSlots(ws) && |buf| <= U64_MAX && FirstUnknown(ws, rs, sem, k, left) && i <= k
    requires ValidAll(Elements(ws)[i..]) && At(buf, pos, EncodeAll(Elements(ws)[i..]))
    requires ValidAll(Elements(ws)[k + 1..])
    requires end + left + |EncodeAll(Elements(ws)[k + 1..])| == pos + |EncodeAll(Elements(ws)[i..])|
    ensures UnknownIn(ElementsFrom(buf, pos, rs, i, Count(ws), LocalsAt(ws, rs, sem, i)), buf, end)
    ensures UnknownIn(ElementsToBreak(buf, pos, rs, i, LocalsAt(ws, rs, sem, i)), buf, end)
    decreases k - i
  {
    hide Encode, Valid, At, EncodeAll, Round, SatisfiedAt, CompatibleAt, GivesUp, ElementsFrom, ElementsToBreak,
      UnknownIn;
    var x := OrNull(Lookup(ws, i));
    ElementFacts(buf, pos, ws, i);
    if i == k {
      ElementFails(buf, pos, ws, rs, sem, k, left, LocalsAt(ws, rs, sem, i));
    } else {
      NextElement(buf, pos, rs, i, Count(ws), LocalsAt(ws, rs, sem, i));
      ElementsGoOn(buf, pos, x, rs, i, LocalsAt(ws, rs, sem, i));
      ElementRound(buf, pos, ws, rs, sem, i);
      ElementsFail(buf, pos + |Encode(x)|, ws, rs, sem, i + 1, k, left, end);
    }
  }

  /** The loops end where the decoder of the element with the unknown variant does. */
  lemma {:induction false} ElementFails<V(!new)>(
    buf: bytes, pos: nat, ws: seq<Slot>, rs: seq<Field<V>>, sem: (int, Item) -> Option<V>, k: nat, left: nat,
    locals: seq<Local<V>>)
    requires ValidSlots(ws) && |buf| <= U64_MAX && FirstUnknown(ws, rs, sem, k, left)
    requires |locals| == |rs| && Valid(OrNull(Lookup(ws, k))) && At(buf, pos, Encode(OrNull(Lookup(ws, k))))
    ensures left <= |Encode(OrNull(Lookup(ws, k)))|
    ensures var end := pos + |Encode(OrNull(Lookup(ws, k)))| - left;
            UnknownIn(ElementsFrom(buf, pos, rs, k, Count(ws), locals), buf, end)
            && UnknownIn(ElementsToBreak(buf, pos, rs, k, locals), buf, end)
  {
    hide Encode, Valid, At, Round, SatisfiedAt, CompatibleAt, ElementsFrom, ElementsToBreak, UnknownIn;
    var x, n := OrNull(Lookup(ws, k)), Count(ws);
    var end := pos + |Encode(x)| - left;
    NextElement(buf, pos, rs, k, n, locals);
    ElementsGoOn(buf, pos, x, rs, k, locals);
    FieldFails(buf, pos, rs, k, FieldAt(rs, k).value, locals, x, left);
    FailureIsErr(Round(buf, pos, rs, k, locals), buf, end);
    SameFailure(Round(buf, pos, rs, k, locals), ElementsFrom(buf, pos, rs, k, n, locals), buf, end);
    SameFailure(Round(buf, pos, rs, k, locals), ElementsToBreak(buf, pos, rs, k, locals), buf, end);
  }

  lemma {:induction false} NextElement<V>(
    buf: bytes, pos: nat, rs: seq<Field<V>>, i: nat, n: nat, locals: seq<Local<V>>)
    requires |locals| == |rs| && i < n
    ensures match Round(buf, pos, rs, i, locals)
      case Ok(ls, p) => ElementsFrom(buf, pos, rs, i, n, locals) == ElementsFrom(buf, p, rs, i + 1, n, ls)
      case Err(e, p) => ElementsFrom(buf, pos, rs, i, n, locals) == Err(e, p)
  {
    hide Round;
  }

  lemma {:induction false} SameFailure<T, U>(r: Res<T>, s: Res<U>, buf: bytes, end: nat)
    requires UnknownIn(r, buf, end) && s == Err(r.error, r.pos)
    ensures UnknownIn(s, buf, end)
  {
    hide Valid, At, Encode;
  }

  lemma {:induction false} FailureIsErr<T>(r: Res<T>, buf: bytes, end: nat)
    requires UnknownIn(r, buf, end)
    ensures r.Err? && r.error.UnknownVariant?
  {
  }

  /** What follows element `k` in the struct: later elements, and the break. */
  ghost function Behind(ws: seq<Slot>, k: nat, indefinite: bool): nat
    requires ValidSlots(ws) && k < Count(ws)
  {
    LaterValid(ws, k);
    |EncodeAll(Elements(ws)[k + 1..])| + if indefinite then 1 else 0
  }

  lemma {:induction false} LaterValid(ws: seq<Slot>, k: nat)
    requires ValidSlots(ws) && k < Count(ws)
    ensures ValidAll(Elements(ws)) && ValidAll(Elements(ws)[k + 1..]) && Valid(Elements(ws)[k])
    ensures |Encode(Elements(ws)[k])| + |EncodeAll(Elements(ws)[k + 1..])| <= |EncodeAll(Elements(ws))|
    ensures |EncodeAll(Elements(ws)[k + 1..])| == 0 <==> k == Count(ws) - 1
  {
    hide EncodeAll, Encode, Valid;
    AllElementsValid(ws);
    Rest(Elements(ws), k + 1);
    EncodeAllSnoc(Elements(ws), k);
    EncodeAllLength(Elements(ws)[k + 1..]);
    if k == Count(ws) - 1 {
      assert Elements(ws)[k + 1..] == [];
      NoElements();
    }
  }

  lemma {:induction false} AllElementsValid(ws: seq<Slot>)
    requires ValidSlots(ws)
    ensures ValidAll(Elements(ws))
  {
    StructIsValid(ws);
  }

  lemma {:induction false} StructFails<V(!new)>(
    buf: bytes, pos: nat, ws: seq<Slot>, rs: seq<Field<V>>, sem: (int, Item) -> Option<V>, x: Item, k: nat, left: nat,
    end: nat)
    requires ValidSlots(ws) && |buf| <= U64_MAX && FirstUnknown(ws, rs, sem, k, left)
    requires x == StructItem(ws) || x == CollIndef(false, Elements(ws))
    requires Valid(x) && At(buf, pos, Encode(x)) && end + left + Behind(ws, k, x.CollIndef?) == pos + |Encode(x)|
    ensures UnknownIn(StructAt(buf, pos, rs), buf, end)
  {
    hide At, Encode, ElementsFrom, ElementsToBreak, EncodeAll, SatisfiedAt, CompatibleAt, GivesUp, UnknownIn, LengthAt;
    LaterValid(ws, k);
    var xs := Elements(ws);
    assert xs[0..] == xs;
    assert LocalsAt(ws, rs, sem, 0) == Initials(rs);
    if x.Coll? {
      CollStarts(buf, pos, x);
      ElementsFail(buf, pos + 1 + x.w.Extra(), ws, rs, sem, 0, k, left, end);
    } else {
      CollIndefStarts(buf, pos, x);
      ElementsFail(buf, pos + 1, ws, rs, sem, 0, k, left, end);
    }
    FailureIsErr(LocalsFromArray(buf, pos, rs), buf, end);
    SameFailure(LocalsFromArray(buf, pos, rs), StructAt(buf, pos, rs), buf, end);
  }

  /**
    A struct gives up as its first field with an unknown variant does, and leaves in addition what follows that field:
    later elements, and the break if its length is indefinite. With `KnownVariantGivesUp` this covers any nesting.
   */
  lemma {:induction false} StructGivesUp<V(!new), W(!new)>(
    f: Field<V>, ws: seq<Slot>, rs: seq<Field<W>>, sem: (int, Item) -> Option<W>, make: seq<Option<W>> -> V,
    x: Item, k: nat, left: nat)
    requires IsStruct(f, false, rs, make) && ValidSlots(ws) && FirstUnknown(ws, rs, sem, k, left)
    requires Valid(x) && (x == StructItem(ws) || x == CollIndef(false, Elements(ws)))
    ensures GivesUp(f, x, left + Behind(ws, k, x.CollIndef?))
  {
    hide At, Encode, Valid, EncodeAll, SatisfiedAt, CompatibleAt, UnknownIn, StructAt, MapStructAt;
    LaterValid(ws, k);
    ItemHoldsElements(x);
    var behind := Behind(ws, k, x.CollIndef?);
    forall buf: bytes, pos: nat | |buf| <= U64_MAX && At(buf, pos, Encode(x))
      ensures UnknownIn(f.dec(buf, pos), buf, pos + |Encode(x)| - (left + behind))
    {
      var end := pos + |Encode(x)| - (left + behind);
      StructFails(buf, pos, ws, rs, sem, x, k, left, end);
      FailureIsErr(StructAt(buf, pos, rs), buf, end);
      SameFailure(StructAt(buf, pos, rs), f.dec(buf, pos), buf, end);
    }
  }

  lemma {:induction false} ItemHoldsElements(x: Item)
    requires Valid(x) && (x.Coll? || x.CollIndef?)
    ensures |EncodeAll(x.items)| + (if x.CollIndef? then 2 else 0) <= |Encode(x)|
  {
    hide EncodeAll;
  }

  /**
    Recovery in an optional field whose decoder gives up on an unknown variant at any depth: the field becomes nil
    and exactly the bytes left are still in front. So alignment is kept if and only if none are: every container on
    the way down to the variant has a definite length and the variant in its last place.
   */
  lemma {:induction false} RecoveryLeaves<V(!new)>(buf: bytes, pos: nat, f: Field<V>, x: Item, left: nat)
    requires f.optional && |buf| <= U64_MAX && Valid(x) && x != NULL_ITEM && At(buf, pos, Encode(x))
    requires GivesUp(f, x, left)
    ensures ReadField(buf, pos, f) == Ok(None, pos + |Encode(x)| - left)
    ensures ReadField(buf, pos, f).pos == pos + |Encode(x)| <==> left == 0
  {
    hide SkipAt, DatatypeAt, Encode, Valid, At;
    DatatypeOfItem(buf, pos, x);
    var end := pos + |Encode(x)| - left;
    assert UnknownIn(f.dec(buf, pos), buf, end);
    var y :| Valid(y) && At(buf, f.dec(buf, pos).pos, Encode(y)) && f.dec(buf, pos).pos + |Encode(y)| == end;
    SkipsItem(buf, f.dec(buf, pos).pos, y);
  }

  /** In particular for an optional struct with an enum of its own that is unknown, whose index is `k`. */
  lemma {:induction false} RecoveryInStruct<V(!new), W(!new)>(
    buf: bytes, pos: nat, f: Field<V>, ws: seq<Slot>, rs: seq<Field<W>>, sem: (int, Item) -> Option<W>,
    make: seq<Option<W>> -> V, x: Item, k: nat)
    requires f.optional && IsStruct(f, false, rs, make) && |buf| <= U64_MAX
    requires ValidSlots(ws) && FirstUnknown(ws, rs, sem, k, 0)
    requires x == StructItem(ws) || x == CollIndef(false, Elements(ws))
    requires Valid(x) && At(buf, pos, Encode(x))
    ensures var r := ReadField(buf, pos, f);
            r.Ok? && r.value == None && r.pos + Behind(ws, k, x.CollIndef?) == pos + |Encode(x)|
    ensures ReadField(buf, pos, f).pos == pos + |Encode(x)| <==> x.Coll? && k == Count(ws) - 1
  {
    hide At, EncodeAll, SatisfiedAt, CompatibleAt, UnknownIn, StructAt, MapStructAt, ReadField, GivesUp;
    LaterValid(ws, k);
    StructGivesUp(f, ws, rs, sem, make, x, k, 0);
    RecoveryLeaves(buf, pos, f, x, Behind(ws, k, x.CollIndef?));
  }

  /**
    An optional field that is a struct with an enum inside: the struct [[7, 0], 5], of five bytes, with an unknown
    variant 7. The field becomes nil with the position inside the struct, in front of its last item.
   */
  lemma {:induction false} NestedUnknownVariantLosesAlignment<V(!new)>(
    f: Field<V>, g: Field<V>, payload: (int, bytes, nat) -> Res<V>, make: seq<Option<V>> -> V)
    requires g.index == 0 && !g.optional && IsEnum(g, {}, payload)
    requires f.optional && IsStruct(f, false, [g], make)
    ensures ReadField([0x82, 0x82, 0x07, 0x00, 0x05], 0, f) == Ok(None, 4)
  {
    var buf: bytes := [0x82, 0x82, 0x07, 0x00, 0x05];
    EnumFails(buf, payload);
    FirstFieldFails(buf, 0, g, 2, 1);
    SkipsZero(buf, 3);
    assert DatatypeAt(buf, 0) == Ok(Array, 0);
    hide StructAt, MapStructAt, SkipAt, EnumAt;
    assert f.dec(buf, 0) == Err(UnknownVariant(7), 3);
  }

  lemma {:induction false} EnumFails<V>(buf: bytes, payload: (int, bytes, nat) -> Res<V>)
    requires buf == [0x82, 0x82, 0x07, 0x00, 0x05]
    ensures LengthAt(buf, 0, 4) == Ok(Some(2), 1) && EnumAt(buf, 1, {}, payload) == Err(UnknownVariant(7), 3)
  {
    assert buf[0] / 32 == 4 && buf[0] % 32 == 2 && buf[2] / 32 == 0 && buf[2] % 32 == 7;
    assert LengthAt(buf, 1, 4) == Ok(Some(2), 2) && IntegerAt(buf, 2, I64) == Ok(7, 3);
  }

  /** A struct fails as its first field does. */
  lemma {:induction false} FirstFieldFails<V>(buf: bytes, pos: nat, g: Field<V>, n: nat, p: nat)
    requires g.index == 0 && !g.optional && n > 0 && LengthAt(buf, pos, 4) == Ok(Some(n), p) && g.dec(buf, p).Err?
    ensures StructAt(buf, pos, [g]) == Err(g.dec(buf, p).error, g.dec(buf, p).pos)
  {
    hide LengthAt;
    assert FieldAt([g], 0) == Some(0);
    assert Round(buf, p, [g], 0, Initials([g])) == Err(g.dec(buf, p).error, g.dec(buf, p).pos);
  }

  lemma {:induction false} SkipsZero(buf: bytes, pos: nat)
    requires pos < |buf| <= U64_MAX && buf[pos] == 0x00
    ensures SkipAt(buf, pos) == Ok((), pos + 1)
  {
    hide SkipAt, At;
    AtByte(buf, pos, 0x00);
    assert Encode(Num(false, Imm, 0)) == [0x00];
    SkipsItem(buf, pos, Num(false, Imm, 0));
  }

  // ----- the same in maps -----

  /**
    The first slot whose field its reader insists on and does not get, because of an unknown variant inside, is slot
    `k`, and its decoder leaves `left` bytes of its value behind.
   */
  ghost predicate FirstUnknownPair<V(!new)>(
    ws: seq<Slot>, rs: seq<Field<V>>, sem: (int, Item) -> Option<V>, k: nat, left: nat)
    requires ValidSlots(ws)
  {
    && DistinctFields(rs) && k < |ws| && ws[k].value.Some? && FieldAt(rs, ws[k].index).Some?
    && var f := rs[FieldAt(rs, ws[k].index).value];
    !f.optional && GivesUp(f, ws[k].value.value, left)
    && ValidSlots(ws[..k]) && EachUnderstood(ws[..k], rs, sem)
    && forall i :: 0 <= i < k ==> TakenBy(ws[i], rs, sem)
  }

  /** The pair fails where the decoder of its value does. */
  lemma {:induction false} PairFails<V(!new)>(
    buf: bytes, pos: nat, ws: seq<Slot>, rs: seq<Field<V>>, sem: (int, Item) -> Option<V>, k: nat, left: nat,
    locals: seq<Local<V>>)
    requires ValidSlots(ws) && FirstUnknownPair(ws, rs, sem, k, left)
    requires |buf| <= U64_MAX && |locals| == |rs| && At(buf, pos, Encode(KeyItem(ws[k].index)))
    requires At(buf, pos + |Encode(KeyItem(ws[k].index))|, Encode(ws[k].value.value))
    ensures left <= |Encode(ws[k].value.value)|
    ensures UnknownIn(PairRound(buf, pos, rs, locals), buf,
      pos + |Encode(KeyItem(ws[k].index))| + |Encode(ws[k].value.value)| - left)
  {
    hide At, Encode, Valid, Round, IntegerAt, UnknownIn, EachUnderstood, TakenBy;
    ReadsWhatFits(buf, pos, KeyItem(ws[k].index), I64);
    var j := FieldAt(rs, ws[k].index).value;
    FieldFails(buf, pos + |Encode(KeyItem(ws[k].index))|, rs, ws[k].index, j, locals, ws[k].value.value, left);
  }

  /** A pair before that one is read as if only the pairs before it mattered. */
  lemma {:induction false} EarlierPairReads<V(!new)>(
    buf: bytes, pos: nat, ws: seq<Slot>, rs: seq<Field<V>>, sem: (int, Item) -> Option<V>, i: nat, k: nat, left: nat)
    requires ValidSlots(ws) && Unique(ws) && |buf| <= U64_MAX && FirstUnknownPair(ws, rs, sem, k, left) && i < k
    requires ws[i].value.Some? && At(buf, pos, Encode(KeyItem(ws[i].index)))
    requires At(buf, pos + |Encode(KeyItem(ws[i].index))|, Encode(ws[i].value.value))
    ensures PairRound(buf, pos, rs, LocalsAfter(ws[..i], rs, sem))
         == Ok(LocalsAfter(ws[..i + 1], rs, sem), pos + |Encode(KeyItem(ws[i].index))| + |Encode(ws[i].value.value)|)
  {
    hide At, Encode, Valid, PairRound, EachUnderstood, TakenBy, GivesUp;
    var pre := ws[..k];
    assert pre[..i] == ws[..i] && pre[..i + 1] == ws[..i + 1] && pre[i] == ws[i];
    PairReads(buf, pos, pre, rs, sem, i);
  }

  lemma {:induction false} PairsFail<V(!new)>(
    buf: bytes, pos: nat, ws: seq<Slot>, rs: seq<Field<V>>, sem: (int, Item) -> Option<V>, i: nat, k: nat, left: nat,
    end: nat)
    requires ValidSlots(ws) && Unique(ws) && |buf| <= U64_MAX && FirstUnknownPair(ws, rs, sem, k, left) && i <= k
    requires ValidAll(Entries(ws[i..])) && At(buf, pos, EncodeAll(Entries(ws[i..]))) && ValidAll(Entries(ws[k + 1..]))
    requires end + left + |EncodeAll(Entries(ws[k + 1..]))| == pos + |EncodeAll(Entries(ws[i..]))|
    ensures UnknownIn(PairsFrom(buf, pos, rs, Present(ws[i..]), LocalsAfter(ws[..i], rs, sem)), buf, end)
    ensures UnknownIn(PairsToBreak(buf, pos, rs, LocalsAfter(ws[..i], rs, sem)), buf, end)
    decreases k - i
  {
    hide At, Encode, Valid, PairRound, EachUnderstood, TakenBy, EncodeAll, Entries, Present, PairsToBreak, UnknownIn,
      GivesUp;
    PairFacts(buf, pos, ws, i);
    if ws[i].value.None? {
      NilPasses(ws, rs, sem, i);
      PairsFail(buf, pos, ws, rs, sem, i + 1, k, left, end);
    } else {
      var key, locals := KeyItem(ws[i].index), LocalsAfter(ws[..i], rs, sem);
      PairsGoOn(buf, pos, key, rs, locals);
      if i == k {
        PairFails(buf, pos, ws, rs, sem, k, left, locals);
        FailureIsErr(PairRound(buf, pos, rs, locals), buf, end);
        SameFailure(PairRound(buf, pos, rs, locals), PairsFrom(buf, pos, rs, Present(ws[i..]), locals), buf, end);
        SameFailure(PairRound(buf, pos, rs, locals), PairsToBreak(buf, pos, rs, locals), buf, end);
      } else {
        EarlierPairReads(buf, pos, ws, rs, sem, i, k, left);
        PairsFail(buf, pos + |Encode(key)| + |Encode(ws[i].value.value)|, ws, rs, sem, i + 1, k, left, end);
      }
    }
  }

  /** What follows the pair of slot `k` in the map: later pairs, and the break. */
  ghost function PairsBehind(ws: seq<Slot>, k: nat, indefinite: bool): nat
    requires ValidSlots(ws) && k < |ws|
  {
    LaterPairsValid(ws, k);
    |EncodeAll(Entries(ws[k + 1..]))| + if indefinite then 1 else 0
  }

  lemma {:induction false} LaterPairsValid(ws: seq<Slot>, k: nat)
    requires ValidSlots(ws) && k < |ws|
    ensures ValidAll(Entries(ws)) && ValidAll(Entries(ws[k + 1..]))
    ensures (if ws[k].value.Some? then |Encode(ws[k].value.value)| else 0) + |EncodeAll(Entries(ws[k + 1..]))|
         <= |EncodeAll(Entries(ws))|
    ensures |EncodeAll(Entries(ws[k + 1..]))| == 0 <==> Present(ws[k + 1..]) == 0
  {
    hide Encode, Valid;
    EntriesValid(ws);
    assert ValidSlots(ws[k..]) && ValidSlots(ws[k + 1..]);
    EntriesValid(ws[k..]);
    EntriesValid(ws[k + 1..]);
    LaterPairsFit(ws, k);
    EntryValid(ws[k]);
    EntriesFrom(ws, k);
    EncodeAllConcat(Entry(ws[k]), Entries(ws[k + 1..]));
    EncodeAllLength(Entries(ws[k + 1..]));
  }

  lemma {:induction false} LaterPairsFit(ws: seq<Slot>, i: nat)
    requires ValidSlots(ws) && i <= |ws| && ValidAll(Entries(ws)) && ValidAll(Entries(ws[i..]))
    ensures |EncodeAll(Entries(ws[i..]))| <= |EncodeAll(Entries(ws))|
  {
    hide Encode, Valid, EncodeAll;
    if i == 0 {
      assert ws[0..] == ws;
    } else {
      assert ValidSlots(ws[1..]) && ws[1..][i - 1..] == ws[i..];
      EntriesValid(ws[1..]);
      LaterPairsFit(ws[1..], i - 1);
      EntryValid(ws[0]);
      EncodeAllConcat(Entry(ws[0]), Entries(ws[1..]));
    }
  }

  lemma {:induction false} MapFails<V(!new)>(
    buf: bytes, pos: nat, ws: seq<Slot>, rs: seq<Field<V>>, sem: (int, Item) -> Option<V>, x: Item, k: nat, left: nat,
    end: nat)
    requires ValidSlots(ws) && Unique(ws) && |buf| <= U64_MAX && |ws| <= MAX_FIELDS
    requires FirstUnknownPair(ws, rs, sem, k, left) && (x == MapItem(ws) || x == CollIndef(true, Entries(ws)))
    requires Valid(x) && At(buf, pos, Encode(x)) && end + left + PairsBehind(ws, k, x.CollIndef?) == pos + |Encode(x)|
    ensures UnknownIn(MapStructAt(buf, pos, rs), buf, end)
  {
    hide At, Encode, Valid, PairsFrom, PairsToBreak, EncodeAll, EachUnderstood, LengthAt, Entries, Present, LocalsAfter,
      Announced, TakenBy, UnknownIn, GivesUp;
    LaterPairsValid(ws, k);
    BeforeAll(ws, rs, sem);
    if x.Coll? {
      PairsAnnounced(ws);
      CollStarts(buf, pos, x);
      PairsFail(buf, pos + 1 + x.w.Extra(), ws, rs, sem, 0, k, left, end);
    } else {
      CollIndefStarts(buf, pos, x);
      PairsFail(buf, pos + 1, ws, rs, sem, 0, k, left, end);
    }
    FailureIsErr(LocalsFromMap(buf, pos, rs), buf, end);
    SameFailure(LocalsFromMap(buf, pos, rs), MapStructAt(buf, pos, rs), buf, end);
  }

  /** A map-encoded struct gives up in the same way, and leaves in addition later pairs and the break. */
  lemma {:induction false} MapStructGivesUp<V(!new), W(!new)>(
    f: Field<V>, ws: seq<Slot>, rs: seq<Field<W>>, sem: (int, Item) -> Option<W>, make: seq<Option<W>> -> V,
    x: Item, k: nat, left: nat)
    requires IsStruct(f, true, rs, make) && ValidSlots(ws) && Unique(ws) && |ws| <= MAX_FIELDS
    requires FirstUnknownPair(ws, rs, sem, k, left)
    requires Valid(x) && (x == MapItem(ws) || x == CollIndef(true, Entries(ws)))
    ensures GivesUp(f, x, left + PairsBehind(ws, k, x.CollIndef?))
  {
    hide At, Encode, Valid, EncodeAll, EachUnderstood, TakenBy, UnknownIn, StructAt, MapStructAt, Entries, Present;
    LaterPairsValid(ws, k);
    ItemHoldsElements(x);
    var behind := PairsBehind(ws, k, x.CollIndef?);
    forall buf: bytes, pos: nat | |buf| <= U64_MAX && At(buf, pos, Encode(x))
      ensures UnknownIn(f.dec(buf, pos), buf, pos + |Encode(x)| - (left + behind))
    {
      var end := pos + |Encode(x)| - (left + behind);
      MapFails(buf, pos, ws, rs, sem, x, k, left, end);
      FailureIsErr(MapStructAt(buf, pos, rs), buf, end);
      SameFailure(MapStructAt(buf, pos, rs), f.dec(buf, pos), buf, end);
    }
  }

  /** In a map, alignment is kept if and only if its length is definite and no later slot has a value. */
  lemma {:induction false} RecoveryInMapStruct<V(!new), W(!new)>(
    buf: bytes, pos: nat, f: Field<V>, ws: seq<Slot>, rs: seq<Field<W>>, sem: (int, Item) -> Option<W>,
    make: seq<Option<W>> -> V, x: Item, k: nat)
    requires f.optional && IsStruct(f, true, rs, make) && |buf| <= U64_MAX && |ws| <= MAX_FIELDS
    requires ValidSlots(ws) && Unique(ws) && FirstUnknownPair(ws, rs, sem, k, 0)
    requires x == MapItem(ws) || x == CollIndef(true, Entries(ws))
    requires Valid(x) && At(buf, pos, Encode(x))
    ensures var r := ReadField(buf, pos, f);
            r.Ok? && r.value == None && r.pos + PairsBehind(ws, k, x.CollIndef?) == pos + |Encode(x)|
    ensures ReadField(buf, pos, f).pos == pos + |Encode(x)| <==> x.Coll? && Present(ws[k + 1..]) == 0
  {
    hide At, EncodeAll, EachUnderstood, TakenBy, UnknownIn, StructAt, MapStructAt, ReadField, GivesUp, Present, Entries;
    LaterPairsValid(ws, k);
    MapStructGivesUp(f, ws, rs, sem, make, x, k, 0);
    RecoveryLeaves(buf, pos, f, x, PairsBehind(ws, k, x.CollIndef?));
  }
}
