/** The generated decoder for array-encoded structs, and what it makes of values written under another schema. */
module DeriveDecode {
  import opened Wire
  import opened Items
  import opened Reads
  import opened Skip
  import opened Integers
  import opened Keys
  import opened Decoding
  import opened Derive

  /** A field of the reader: its index, whether its type is optional, and the decoder of the type inside. */
  datatype Field<!V> = Field(index: i64, optional: bool, dec: (bytes, nat) -> Res<V>)

  /** The local variable of a field while decoding: not set, or set to a value that may be nil. */
  type Local<V> = Option<Option<V>>

  function Initial<V>(f: Field<V>): Local<V> {
    if f.optional then Some(None) else None
  }

  /** The action for a field at its index; `None` leaves the local variable as it is. */
  function ReadField<V>(buf: bytes, pos: nat, f: Field<V>): Res<Local<V>> {
    if f.optional && DatatypeAt(buf, pos).Err? then Err(DatatypeAt(buf, pos).error, pos)
    else if f.optional && DatatypeAt(buf, pos).value == Null then
      match SkipAt(buf, pos)
      case Ok(_, p) => Ok(Some(None), p)
      case Err(e, p) => Err(e, p)
    else match f.dec(buf, pos)
      case Ok(v, p) => Ok(Some(Some(v)), p)
      case Err(e, p) =>
        if e.UnknownVariant? && f.optional then
          match SkipAt(buf, p)
          case Ok(_, q) => Ok(None, q)
          case Err(e', q) => Err(e', q)
        else Err(e, p)
  }

  /** Which field has this index. */
  function FieldAt<V>(rs: seq<Field<V>>, index: int): (j: Option<nat>)
    ensures j.Some? ==> j.value < |rs| && rs[j.value].index == index
    ensures j == None ==> forall i :: 0 <= i < |rs| ==> rs[i].index != index
  {
    if rs == [] then None
    else if rs[|rs| - 1].index == index then Some(|rs| - 1)
    else FieldAt(rs[..|rs| - 1], index)
  }

  /** One round of the loop over the elements: a known index is decoded, any other element skipped. */
  function Round<V>(buf: bytes, pos: nat, rs: seq<Field<V>>, i: int, locals: seq<Local<V>>): (r: Res<seq<Local<V>>>)
    requires |locals| == |rs|
    ensures r.Ok? ==> |r.value| == |rs|
  {
    match FieldAt(rs, i)
    case None => MapRes(SkipAt(buf, pos), _ => locals)
    case Some(j) => MapRes(ReadField(buf, pos, rs[j]), (l: Local<V>) => if l.Some? then locals[j := l] else locals)
  }

  /** The loop over an array of `n` elements. */
  function ElementsFrom<V>(
    buf: bytes, pos: nat, rs: seq<Field<V>>, i: nat, n: nat, locals: seq<Local<V>>): (r: Res<seq<Local<V>>>)
    requires i <= n && |locals| == |rs|
    ensures r.Ok? ==> |r.value| == |rs|
    decreases n - i
  {
    if i == n then Ok(locals, pos)
    else match Round(buf, pos, rs, i, locals)
      case Ok(ls, p) => ElementsFrom(buf, p, rs, i + 1, n, ls)
      case Err(e, p) => Err(e, p)
  }

  /** The loop over an array of indefinite length. Every round moves on; a decoder that reads nothing is refused. */
  function ElementsToBreak<V>(
    buf: bytes, pos: nat, rs: seq<Field<V>>, i: nat, locals: seq<Local<V>>): (r: Res<seq<Local<V>>>)
    requires |locals| == |rs|
    ensures r.Ok? ==> |r.value| == |rs|
    decreases |buf| - pos
  {
    match DatatypeAt(buf, pos)
    case Err(e, p) => Err(e, p)
    case Ok(t, _) =>
      if t == Break then MapRes(SkipAt(buf, pos), _ => locals)
      else match Round(buf, pos, rs, i, locals)
        case Ok(ls, p) => if pos < p then ElementsToBreak(buf, p, rs, i + 1, ls) else Err(Message, p)
        case Err(e, p) => Err(e, p)
  }

  predicate FirstMissing<V>(locals: seq<Local<V>>, j: nat) {
    j < |locals| && locals[j].None? && forall i :: 0 <= i < j ==> locals[i].Some?
  }

  /** Build the struct: a field that was not set and cannot be nil is missing. */
  function Build<V>(rs: seq<Field<V>>, locals: seq<Local<V>>, pos: nat): (r: Res<seq<Option<V>>>)
    requires |locals| == |rs|
    ensures r.pos == pos
    ensures r.Ok? <==> forall j :: 0 <= j < |rs| ==> locals[j].Some?
    ensures r.Ok? ==> |r.value| == |rs| && forall j :: 0 <= j < |rs| ==> r.value[j] == locals[j].value
    ensures r.Err? ==> exists j :: 0 <= j < |rs| && FirstMissing(locals, j) && r.error == MissingValue(rs[j].index)
  {
    if rs == [] then Ok([], pos)
    else
      var k := |rs| - 1;
      match Build(rs[..k], locals[..k], pos)
      case Err(e, p) => Err(e, p)
      case Ok(vs, p) => if locals[k].Some? then Ok(vs + [locals[k].value], p) else Err(MissingValue(rs[k].index), p)
  }

  function Initials<V>(rs: seq<Field<V>>): (ls: seq<Local<V>>)
    ensures |ls| == |rs| && forall j :: 0 <= j < |ls| ==> ls[j] == Initial(rs[j])
  {
    seq(|rs|, j requires 0 <= j < |rs| => Initial(rs[j]))
  }

  /** The local variables once an array-encoded struct has been read. */
  function LocalsFromArray<V>(buf: bytes, pos: nat, rs: seq<Field<V>>): (r: Res<seq<Local<V>>>)
    ensures r.Ok? ==> |r.value| == |rs|
  {
    match LengthAt(buf, pos, 4)
    case Err(e, p) => Err(e, p)
    case Ok(n, p) =>
      if n.Some? then ElementsFrom(buf, p, rs, 0, n.value, Initials(rs))
        else ElementsToBreak(buf, p, rs, 0, Initials(rs))
  }

  function StructAt<V>(buf: bytes, pos: nat, rs: seq<Field<V>>): Res<seq<Option<V>>> {
    match LocalsFromArray(buf, pos, rs)
    case Err(e, p) => Err(e, p)
    case Ok(locals, p) => Build(rs, locals, p)
  }

  method DecodeStruct<V>(d: Decoder, rs: seq<Field<V>>) returns (r: Res<seq<Option<V>>>)
    modifies d`pos
    ensures r == StructAt(d.buf, old(d.pos), rs) && d.pos == r.pos
  {
    hide LengthAt, ElementsFrom, ElementsToBreak;
    var len := d.Length(4);
    if len.Err? {
      return Err(len.error, len.pos);
    }
    var ls;
    if len.value.Some? {
      ls := DecodeElements(d, rs, len.value.value);
    } else {
      ls := DecodeToBreak(d, rs);
    }
    if ls.Err? {
      return Err(ls.error, ls.pos);
    }
    r := Build(rs, ls.value, d.pos);
  }

  method DecodeElements<V>(d: Decoder, rs: seq<Field<V>>, n: nat) returns (r: Res<seq<Local<V>>>)
    modifies d`pos
    ensures r == ElementsFrom(d.buf, old(d.pos), rs, 0, n, Initials(rs)) && d.pos == r.pos
  {
    hide Round;
    var locals := Initials(rs);
    for i := 0 to n
      invariant |locals| == |rs|
      invariant ElementsFrom(d.buf, d.pos, rs, i, n, locals) == ElementsFrom(d.buf, old(d.pos), rs, 0, n, Initials(rs))
    {
      var ls := DecodeElement(d, rs, i, locals);
      if ls.Err? {
        return ls;
      }
      locals := ls.value;
    }
    r := Ok(locals, d.pos);
  }

  method DecodeToBreak<V>(d: Decoder, rs: seq<Field<V>>) returns (r: Res<seq<Local<V>>>)
    modifies d`pos
    ensures r == ElementsToBreak(d.buf, old(d.pos), rs, 0, Initials(rs)) && d.pos == r.pos
  {
    hide Round, SkipAt;
    var locals, i := Initials(rs), 0;
    while true
      invariant |locals| == |rs|
      invariant ElementsToBreak(d.buf, d.pos, rs, i, locals) == ElementsToBreak(d.buf, old(d.pos), rs, 0, Initials(rs))
      decreases |d.buf| - d.pos
    {
      var t := DatatypeAt(d.buf, d.pos);
      if t.Err? {
        return Err(t.error, d.pos);
      }
      if t.value == Break {
        var s := d.Skip();
        return MapRes(s, _ => locals);
      }
      var before := d.pos;
      var ls := DecodeElement(d, rs, i, locals);
      if ls.Err? {
        return ls;
      }
      if d.pos <= before {
        return Err(Message, d.pos);
      }
      locals, i := ls.value, i + 1;
    }
  }

  method DecodeElement<V>(d: Decoder, rs: seq<Field<V>>, i: int, locals: seq<Local<V>>) returns (r: Res<seq<Local<V>>>)
    requires |locals| == |rs|
    modifies d`pos
    ensures r == Round(d.buf, old(d.pos), rs, i, locals) && d.pos == r.pos
  {
    hide SkipAt, ReadField;
    match FieldAt(rs, i)
    case None =>
      var s := d.Skip();
      r := MapRes(s, _ => locals);
    case Some(j) =>
      var l := DecodeField(d, rs[j]);
      r := MapRes(l, (l: Local<V>) => if l.Some? then locals[j := l] else locals);
  }

  method DecodeField<V>(d: Decoder, f: Field<V>) returns (r: Res<Local<V>>)
    modifies d`pos
    ensures r == ReadField(d.buf, old(d.pos), f) && d.pos == r.pos
  {
    hide SkipAt;
    if f.optional {
      var t := DatatypeAt(d.buf, d.pos);
      if t.Err? {
        return Err(t.error, d.pos);
      }
      if t.value == Null {
        var s := d.Skip();
        return if s.Ok? then Ok(Some(None), s.pos) else Err(s.error, s.pos);
      }
    }
    var v := f.dec(d.buf, d.pos);
    d.pos := v.pos;
    match v
    case Ok(x, p) => r := Ok(Some(Some(x)), p);
    case Err(e, p) =>
      if e.UnknownVariant? && f.optional {
        var s := d.Skip();
        r := if s.Ok? then Ok(None, s.pos) else Err(s.error, s.pos);
      } else {
        r := Err(e, p);
      }
  }

  // ----- reading what another schema wrote -----

  /** The decoder gave up on an enum variant it does not know, in front of that variant's one remaining item. */
  ghost predicate UnknownIn<V>(r: Res<V>, buf: bytes, end: nat) {
    r.Err? && r.error.UnknownVariant?
    && exists y :: Valid(y) && At(buf, r.pos, Encode(y)) && r.pos + |Encode(y)| == end
  }

  /** What a field's decoder makes of an item, wherever it stands: a value, or an enum variant it does not know. */
  ghost predicate Understands<V(!new)>(f: Field<V>, x: Item, meaning: Option<V>)
    requires Valid(x)
  {
    forall buf: bytes, pos: nat | |buf| <= U64_MAX && At(buf, pos, Encode(x)) ::
      if meaning.Some? then f.dec(buf, pos) == Ok(meaning.value, pos + |Encode(x)|)
      else UnknownIn(f.dec(buf, pos), buf, pos + |Encode(x)|)
  }

  /** A type that is not optional does not read null as one of its values. */
  ghost predicate RejectsNull<V>(f: Field<V>) {
    forall buf: bytes, pos: nat | pos < |buf| && buf[pos] == NULL :: f.dec(buf, pos).Err?
  }

  /** A reader schema that can make sense of everything in the written value. */
  ghost predicate Compatible<V(!new)>(ws: seq<Slot>, rs: seq<Field<V>>, sem: (int, Item) -> Option<V>)
    requires ValidSlots(ws)
  {
    Readable(ws, rs, sem) && forall j :: 0 <= j < |rs| ==> !rs[j].optional ==> RejectsNull(rs[j])
  }

  /** The part of this that does not depend on nulls in the place of missing values. */
  ghost predicate Readable<V(!new)>(ws: seq<Slot>, rs: seq<Field<V>>, sem: (int, Item) -> Option<V>)
    requires ValidSlots(ws)
  {
    && DistinctFields(rs)
    && (forall j :: 0 <= j < |rs| ==> Lookup(ws, rs[j].index).Some? ==>
          (LookupValid(ws, rs[j].index);
           var x := Lookup(ws, rs[j].index).value; Understands(rs[j], x, sem(rs[j].index, x))))
  }

  predicate DistinctFields<V(!new)>(rs: seq<Field<V>>) {
    forall i, j :: 0 <= i < j < |rs| ==> rs[i].index != rs[j].index
  }

  /** The field at index `i`, if the reader has one, makes sense of what was written for it. */
  ghost predicate CompatibleAt<V(!new)>(ws: seq<Slot>, rs: seq<Field<V>>, sem: (int, Item) -> Option<V>, i: int)
    requires ValidSlots(ws)
  {
    forall j :: 0 <= j < |rs| && rs[j].index == i ==>
      (!rs[j].optional ==> RejectsNull(rs[j]))
      && (Lookup(ws, i).Some? ==>
            (LookupValid(ws, i); Understands(rs[j], Lookup(ws, i).value, sem(i, Lookup(ws, i).value))))
  }

  lemma {:induction false} CompatibleEverywhere<V(!new)>(
    ws: seq<Slot>, rs: seq<Field<V>>, sem: (int, Item) -> Option<V>, i: int)
    requires ValidSlots(ws) && Compatible(ws, rs, sem)
    ensures DistinctFields(rs) && CompatibleAt(ws, rs, sem, i)
  {
    hide Understands, Valid, RejectsNull;
  }

  /** What the reader should get for a field: the written value if it is there and understood. */
  function Wanted<V>(ws: seq<Slot>, f: Field<V>, sem: (int, Item) -> Option<V>): Option<V> {
    match Lookup(ws, f.index)
    case None => None
    case Some(x) => sem(f.index, x)
  }

  predicate Satisfied<V>(ws: seq<Slot>, f: Field<V>, sem: (int, Item) -> Option<V>) {
    f.optional || Wanted(ws, f, sem).Some?
  }

  /** The locals once the elements before `i` have been read. */
  function LocalsAt<V>(ws: seq<Slot>, rs: seq<Field<V>>, sem: (int, Item) -> Option<V>, i: nat): (ls: seq<Local<V>>)
    ensures |ls| == |rs|
    ensures forall j :: 0 <= j < |rs| ==>
      ls[j] == if 0 <= rs[j].index < i then Some(Wanted(ws, rs[j], sem)) else Initial(rs[j])
  {
    seq(|rs|, j requires 0 <= j < |rs| => if 0 <= rs[j].index < i then Some(Wanted(ws, rs[j], sem)) else Initial(rs[j]))
  }

  lemma {:induction false} DatatypeOfItem(buf: bytes, pos: nat, x: Item)
    requires Valid(x) && At(buf, pos, Encode(x))
    ensures DatatypeAt(buf, pos).Ok? && DatatypeAt(buf, pos).value != Break
    ensures DatatypeAt(buf, pos).value == Null <==> x == NULL_ITEM
  {
    hide Encode;
    FirstByte(x);
    assert buf[pos] == Encode(x)[0];
    if x.Num? {
      DatatypeOfInteger(buf, pos, x);
    }
  }

  /** One element at the index of a field: understood, unknown or nil, the position is behind it afterwards. */
  lemma {:induction false} FieldReads<V(!new)>(buf: bytes, pos: nat, f: Field<V>, v: Option<Item>, meaning: Option<V>)
    requires Valid(OrNull(v)) && At(buf, pos, Encode(OrNull(v))) && |buf| <= U64_MAX
    requires v.Some? ==> v.value != NULL_ITEM && Understands(f, v.value, meaning)
    requires v == None ==> meaning == None && (f.optional || RejectsNull(f))
    ensures f.optional || meaning.Some? ==>
      ReadField(buf, pos, f).Ok? && ReadField(buf, pos, f).pos == pos + |Encode(OrNull(v))|
    ensures f.optional ==>
      ReadField(buf, pos, f).value in {Some(meaning), None}
        && (ReadField(buf, pos, f).value == None ==> meaning == None)
    ensures !f.optional && meaning.Some? ==> ReadField(buf, pos, f).value == Some(meaning)
    ensures !f.optional && meaning == None ==> ReadField(buf, pos, f).Err?
  {
    hide SkipAt, DatatypeAt;
    var x := OrNull(v);
    DatatypeOfItem(buf, pos, x);
    SkipsItem(buf, pos, x);
    if v == None {
      FirstByte(x);
      assert buf[pos] == NULL;
    } else if meaning == None {
      var y :| Valid(y) && At(buf, f.dec(buf, pos).pos, Encode(y))
        && f.dec(buf, pos).pos + |Encode(y)| == pos + |Encode(x)|;
      SkipsItem(buf, f.dec(buf, pos).pos, y);
    }
  }

  /** Facts about element `i`: it is a valid item, and the remaining ones follow it. */
  lemma {:induction false} ElementFacts(buf: bytes, pos: nat, ws: seq<Slot>, i: nat)
    requires ValidSlots(ws) && i < Count(ws)
    requires ValidAll(Elements(ws)[i..]) && At(buf, pos, EncodeAll(Elements(ws)[i..]))
    ensures var x := OrNull(Lookup(ws, i));
            Valid(x) && At(buf, pos, Encode(x)) && ValidAll(Elements(ws)[i + 1..])
            && EncodeAll(Elements(ws)[i..]) == Encode(x) + EncodeAll(Elements(ws)[i + 1..])
            && At(buf, pos + |Encode(x)|, EncodeAll(Elements(ws)[i + 1..]))
  {
    var xs := Elements(ws)[i..];
    assert xs[0] == OrNull(Lookup(ws, i)) && xs[1..] == Elements(ws)[i + 1..];
    AtConcat(buf, pos, Encode(xs[0]), EncodeAll(xs[1..]));
  }

  /** The field at index `i`, if the reader has one, gets what it insists on. */
  predicate SatisfiedAt<V>(ws: seq<Slot>, rs: seq<Field<V>>, sem: (int, Item) -> Option<V>, i: nat) {
    FieldAt(rs, i).Some? ==> Satisfied(ws, rs[FieldAt(rs, i).value], sem)
  }

  /** One round: past the element, with the locals of the next one, or failed if the field is not satisfied. */
  lemma {:induction false} ElementRound<V(!new)>(
    buf: bytes, pos: nat, ws: seq<Slot>, rs: seq<Field<V>>, sem: (int, Item) -> Option<V>, i: nat)
    requires ValidSlots(ws) && DistinctFields(rs) && CompatibleAt(ws, rs, sem, i) && |buf| <= U64_MAX
    requires Valid(OrNull(Lookup(ws, i))) && At(buf, pos, Encode(OrNull(Lookup(ws, i))))
    ensures var r := Round(buf, pos, rs, i, LocalsAt(ws, rs, sem, i));
            if SatisfiedAt(ws, rs, sem, i)
              then r == Ok(LocalsAt(ws, rs, sem, i + 1), pos + |Encode(OrNull(Lookup(ws, i)))|) else r.Err?
  {
    hide SkipAt, ReadField, Encode, Valid, At;
    var v := Lookup(ws, i);
    var x := OrNull(v);
    match FieldAt(rs, i)
    case None =>
      SkipsItem(buf, pos, x);
      assert LocalsAt(ws, rs, sem, i + 1) == LocalsAt(ws, rs, sem, i);
    case Some(j) =>
      LookupValid(ws, i);
      FieldReads(buf, pos, rs[j], v, Wanted(ws, rs[j], sem));
      var now := LocalsAt(ws, rs, sem, i);
      assert LocalsAt(ws, rs, sem, i + 1) == now[j := Some(Wanted(ws, rs[j], sem))];
      if Wanted(ws, rs[j], sem) == None && rs[j].optional {
        assert now[j := Some(Wanted(ws, rs[j], sem))] == now;
      }
  }

  /** Every field from index `i` on that the array reaches is satisfied. */
  ghost predicate SatisfiedFrom<V>(ws: seq<Slot>, rs: seq<Field<V>>, sem: (int, Item) -> Option<V>, i: nat) {
    forall j :: 0 <= j < |rs| ==> i <= rs[j].index < Count(ws) ==> Satisfied(ws, rs[j], sem)
  }

  lemma {:induction false} ElementsRead<V(!new)>(
    buf: bytes, pos: nat, ws: seq<Slot>, rs: seq<Field<V>>, sem: (int, Item) -> Option<V>, i: nat)
    requires ValidSlots(ws) && Compatible(ws, rs, sem) && |buf| <= U64_MAX && i <= Count(ws)
    requires ValidAll(Elements(ws)[i..]) && At(buf, pos, EncodeAll(Elements(ws)[i..]))
    ensures var r := ElementsFrom(buf, pos, rs, i, Count(ws), LocalsAt(ws, rs, sem, i));
            if SatisfiedFrom(ws, rs, sem, i)
            then r == Ok(LocalsAt(ws, rs, sem, Count(ws)), pos + |EncodeAll(Elements(ws)[i..])|) else r.Err?
    decreases Count(ws) - i
  {
    hide Encode, Valid, At, EncodeAll, Round, Compatible, CompatibleAt, SatisfiedAt;
    if i == Count(ws) {
      assert Elements(ws)[i..] == [];
      NoElements();
    } else {
      var x := OrNull(Lookup(ws, i));
      ElementFacts(buf, pos, ws, i);
      CompatibleEverywhere(ws, rs, sem, i);
      ElementRound(buf, pos, ws, rs, sem, i);
      SatisfiedSplit(ws, rs, sem, i);
      ElementsRead(buf, pos + |Encode(x)|, ws, rs, sem, i + 1);
    }
  }

  lemma {:induction false} SatisfiedSplit<V(!new)>(
    ws: seq<Slot>, rs: seq<Field<V>>, sem: (int, Item) -> Option<V>, i: nat)
    requires ValidSlots(ws) && Compatible(ws, rs, sem) && i < Count(ws)
    ensures SatisfiedFrom(ws, rs, sem, i)
       <==> SatisfiedAt(ws, rs, sem, i) && SatisfiedFrom(ws, rs, sem, i + 1)
  {
  }

  lemma {:induction false} ElementsEnd<V>(buf: bytes, pos: nat, rs: seq<Field<V>>, i: nat, locals: seq<Local<V>>)
    requires |locals| == |rs| && At(buf, pos, [BREAK])
    ensures ElementsToBreak(buf, pos, rs, i, locals) == Ok(locals, pos + 1)
  {
    hide At, SkipAt, DatatypeAt;
    SkipsBreak(buf, pos);
  }

  lemma {:induction false} ElementsGoOn<V>(
    buf: bytes, pos: nat, x: Item, rs: seq<Field<V>>, i: nat, locals: seq<Local<V>>)
    requires |locals| == |rs| && Valid(x) && At(buf, pos, Encode(x))
    ensures Encode(x) != []
    ensures match Round(buf, pos, rs, i, locals)
      case Ok(ls, p) => pos < p ==> ElementsToBreak(buf, pos, rs, i, locals) == ElementsToBreak(buf, p, rs, i + 1, ls)
      case Err(e, p) => ElementsToBreak(buf, pos, rs, i, locals) == Err(e, p)
  {
    hide At, Encode, Valid, Round, DatatypeAt;
    DatatypeOfItem(buf, pos, x);
    FirstByte(x);
  }

  lemma {:induction false} ElementsReadToBreak<V(!new)>(
    buf: bytes, pos: nat, ws: seq<Slot>, rs: seq<Field<V>>, sem: (int, Item) -> Option<V>, i: nat)
    requires ValidSlots(ws) && Compatible(ws, rs, sem) && |buf| <= U64_MAX && i <= Count(ws)
    requires ValidAll(Elements(ws)[i..]) && At(buf, pos, EncodeAll(Elements(ws)[i..]))
    requires At(buf, pos + |EncodeAll(Elements(ws)[i..])|, [BREAK])
    ensures var r := ElementsToBreak(buf, pos, rs, i, LocalsAt(ws, rs, sem, i));
            if SatisfiedFrom(ws, rs, sem, i)
            then r == Ok(LocalsAt(ws, rs, sem, Count(ws)), pos + |EncodeAll(Elements(ws)[i..])| + 1) else r.Err?
    decreases Count(ws) - i
  {
    hide Encode, Valid, At, EncodeAll, Round, Compatible, CompatibleAt, SatisfiedAt, ElementsToBreak;
    if i == Count(ws) {
      assert Elements(ws)[i..] == [];
      NoElements();
      ElementsEnd(buf, pos, rs, i, LocalsAt(ws, rs, sem, i));
    } else {
      var x := OrNull(Lookup(ws, i));
      ElementFacts(buf, pos, ws, i);
      CompatibleEverywhere(ws, rs, sem, i);
      ElementRound(buf, pos, ws, rs, sem, i);
      SatisfiedSplit(ws, rs, sem, i);
      ElementsGoOn(buf, pos, x, rs, i, LocalsAt(ws, rs, sem, i));
      ElementsReadToBreak(buf, pos + |Encode(x)|, ws, rs, sem, i + 1);
    }
  }

  lemma {:induction false} NoElements()
    ensures EncodeAll([]) == []
  {
  }

  /** A break byte on its own is skipped as one item. */
  lemma {:induction false} SkipsBreak(buf: bytes, pos: nat)
    requires At(buf, pos, [BREAK])
    ensures SkipAt(buf, pos) == Ok((), pos + 1) && DatatypeAt(buf, pos) == Ok(Break, pos)
  {
    AtByte(buf, pos, BREAK);
    assert EventAt(buf, pos) == Ok(Close, pos + 1);
    assert Advance(START, Close) == State(0, 0, []);
    assert Run(buf, pos + 1, State(0, 0, [])) == Ok((), pos + 1);
  }

  /** Reading the array itself, of definite or indefinite length. */
  lemma {:induction false} ArrayRead<V(!new)>(
    buf: bytes, pos: nat, ws: seq<Slot>, rs: seq<Field<V>>, sem: (int, Item) -> Option<V>, x: Item)
    requires ValidSlots(ws) && Compatible(ws, rs, sem) && |buf| <= U64_MAX
    requires x == StructItem(ws) || x == CollIndef(false, Elements(ws))
    requires Valid(x) && At(buf, pos, Encode(x))
    ensures if SatisfiedFrom(ws, rs, sem, 0)
            then LocalsFromArray(buf, pos, rs) == Ok(LocalsAt(ws, rs, sem, Count(ws)), pos + |Encode(x)|)
            else LocalsFromArray(buf, pos, rs).Err?
  {
    hide Compatible, At, ElementsFrom, ElementsToBreak, EncodeAll, Head, SatisfiedFrom;
    var xs := Elements(ws);
    assert xs[0..] == xs;
    assert LocalsAt(ws, rs, sem, 0) == Initials(rs);
    if x.Coll? {
      CollStarts(buf, pos, x);
      ElementsRead(buf, pos + 1 + x.w.Extra(), ws, rs, sem, 0);
    } else {
      CollIndefStarts(buf, pos, x);
      ElementsReadToBreak(buf, pos + 1, ws, rs, sem, 0);
    }
  }

  lemma {:induction false} CollStarts(buf: bytes, pos: nat, x: Item)
    requires x.Coll? && Valid(x) && At(buf, pos, Encode(x))
    ensures var p := pos + 1 + x.w.Extra();
            LengthAt(buf, pos, CollMajor(x.isMap)) == Ok(Some(Announced(x.isMap, |x.items|)), p)
            && At(buf, p, EncodeAll(x.items)) && p + |EncodeAll(x.items)| == pos + |Encode(x)|
  {
    hide At, EncodeAll, Head;
    var n := Announced(x.isMap, |x.items|);
    AtConcat(buf, pos, Head(CollMajor(x.isMap), x.w, n), EncodeAll(x.items));
    HeadReads(buf, pos, CollMajor(x.isMap), x.w, n);
  }

  lemma {:induction false} CollIndefStarts(buf: bytes, pos: nat, x: Item)
    requires x.CollIndef? && Valid(x) && At(buf, pos, Encode(x))
    ensures LengthAt(buf, pos, CollMajor(x.isMap)) == Ok(None, pos + 1) && At(buf, pos + 1, EncodeAll(x.items))
    ensures At(buf, pos + 1 + |EncodeAll(x.items)|, [BREAK]) && pos + |EncodeAll(x.items)| + 2 == pos + |Encode(x)|
  {
    hide At, EncodeAll;
    var h, body := IndefHead(CollMajor(x.isMap)), EncodeAll(x.items);
    assert Encode(x) == [h] + (body + [BREAK]);
    AtConcat(buf, pos, [h], body + [BREAK]);
    AtConcat(buf, pos + 1, body, [BREAK]);
    AtByte(buf, pos, h);
  }

  /**
    Forward and backward compatibility. A struct written under one schema and read under another: reading succeeds
    exactly when every field the reader insists on was written with a value it understands. Then common fields have
    the written values, fields only the reader has are nil, unknown enum variants of optional fields are nil, fields
    only the writer has are passed over, and the whole struct is consumed.
   */
  lemma {:induction false} ReadsAcrossSchemas<V(!new)>(
    buf: bytes, pos: nat, ws: seq<Slot>, rs: seq<Field<V>>, sem: (int, Item) -> Option<V>, x: Item)
    requires Sorted(ws) && ValidSlots(ws) && Compatible(ws, rs, sem) && |buf| <= U64_MAX
    requires x == StructItem(ws) || x == CollIndef(false, Elements(ws))
    requires Valid(x) && At(buf, pos, Encode(x))
    ensures StructAt(buf, pos, rs).Ok? <==> forall j :: 0 <= j < |rs| ==> Satisfied(ws, rs[j], sem)
    ensures StructAt(buf, pos, rs).Ok? ==>
      StructAt(buf, pos, rs).pos == pos + |Encode(x)|
      && |StructAt(buf, pos, rs).value| == |rs|
      && forall j :: 0 <= j < |rs| ==> StructAt(buf, pos, rs).value[j] == Wanted(ws, rs[j], sem)
  {
    hide Compatible, At, LocalsFromArray, Encode, Valid;
    ArrayRead(buf, pos, ws, rs, sem, x);
    forall j | 0 <= j < |rs| && !(0 <= rs[j].index < Count(ws)) ensures Wanted(ws, rs[j], sem) == None {
      if rs[j].index < 0 {
        AboveAll(ws, rs[j].index);
      } else {
        NothingBeyond(ws, rs[j].index);
      }
    }
  }

  lemma {:induction false} EncodePair(x: Item, y: Item)
    ensures ValidAll([x, y]) <==> Valid(x) && Valid(y)
    ensures Valid(x) && Valid(y) ==> EncodeAll([x, y]) == Encode(x) + Encode(y)
  {
    hide Encode, Valid;
    assert [x, y][0] == x && [x, y][1..] == [y] && [y][0] == y && [y][1..] == [];
    assert ValidAll([y]) <==> Valid(y);
    if Valid(x) && Valid(y) {
      assert EncodeAll([y]) == Encode(y) + EncodeAll([]) == Encode(y);
    }
  }
}
