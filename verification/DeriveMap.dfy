/** Map encoding of derived structs: each field that is not nil is a pair of its index and its value. */
module DeriveMap {
  import opened Wire
  import opened Items
  import opened Reads
  import opened Skip
  import opened Integers
  import opened Decoding
  import opened Keys
  import opened Derive
  import opened DeriveDecode

  /** How many fields are not nil. */
  function Present(ws: seq<Slot>): (n: nat)
    ensures n <= |ws|
  {
    if ws == [] then 0 else (if ws[0].value.Some? then 1 else 0) + Present(ws[1..])
  }

  function Entry(w: Slot): seq<Item> {
    if w.value.Some? then [KeyItem(w.index), w.value.value] else []
  }

  /** The keys and values of the map, in the order of the fields. */
  function Entries(ws: seq<Slot>): (xs: seq<Item>)
    ensures |xs| == 2 * Present(ws)
  {
    if ws == [] then [] else Entry(ws[0]) + Entries(ws[1..])
  }

  /** The number of fields is counted in 32 bits. */
  const MAX_FIELDS: nat := 0xffff_ffff

  function MapItem(ws: seq<Slot>): Item
    requires |ws| <= MAX_FIELDS
  {
    Coll(true, Preferred(Present(ws)), Entries(ws))
  }

  /** The indices are distinct, which is what the uniqueness test leaves. */
  ghost predicate Unique(ws: seq<Slot>) {
    forall i, j :: 0 <= i < j < |ws| ==> ws[i].index != ws[j].index
  }

  /** The order the fields are arranged in. */
  ghost predicate ByKey(ws: seq<Slot>) {
    forall i, j :: 0 <= i < j < |ws| ==> KeyLess(ws[i].index, ws[j].index)
  }

  // ----- encoding -----

  /** The generated encoder: one field less announced for each nil, then a pair for every other field. */
  method EncodeMapFields(ws: seq<Slot>) returns (header: nat, xs: seq<Item>)
    ensures 2 * header == |xs| && xs == Entries(ws)
  {
    hide Entries, Present;
    header := |ws|;
    for j := 0 to |ws|
      invariant header + Present(ws[j..]) == Present(ws) + (|ws| - j)
    {
      EntriesFrom(ws, j);
      if ws[j].value.None? {
        header := header - 1;
      }
    }
    NoEntries(ws);
    xs := [];
    for j := 0 to |ws|
      invariant xs + Entries(ws[j..]) == Entries(ws)
    {
      EntriesFrom(ws, j);
      if ws[j].value.Some? {
        xs := xs + [KeyItem(ws[j].index), ws[j].value.value];
      }
    }
  }

  lemma {:induction false} EntriesFrom(ws: seq<Slot>, j: nat)
    requires j < |ws|
    ensures Entries(ws[j..]) == Entry(ws[j]) + Entries(ws[j + 1..])
    ensures Present(ws[j..]) == (if ws[j].value.Some? then 1 else 0) + Present(ws[j + 1..])
  {
    assert ws[j..][1..] == ws[j + 1..];
  }

  lemma {:induction false} NoEntries(ws: seq<Slot>)
    ensures Entries(ws[|ws|..]) == [] && Present(ws[|ws|..]) == 0
  {
    assert ws[|ws|..] == [];
  }

  lemma {:induction false} EntriesValid(ws: seq<Slot>)
    requires ValidSlots(ws)
    ensures ValidAll(Entries(ws))
  {
    hide Valid;
    if ws != [] {
      assert ValidSlots(ws[1..]);
      EntriesValid(ws[1..]);
      EntryValid(ws[0]);
      EncodeAllConcat(Entry(ws[0]), Entries(ws[1..]));
    }
  }

  lemma {:induction false} EntryValid(w: Slot)
    requires w.value.Some? ==> Valid(w.value.value)
    ensures ValidAll(Entry(w))
    ensures EncodeAll(Entry(w)) == if w.value.Some? then Encode(KeyItem(w.index)) + Encode(w.value.value) else []
  {
    hide Valid, Encode;
    if w.value.Some? {
      EncodePair(KeyItem(w.index), w.value.value);
    }
  }

  /** Whatever is nil, the struct is written as one well-formed map. */
  lemma {:induction false} MapIsValid(ws: seq<Slot>)
    requires ValidSlots(ws) && |ws| <= MAX_FIELDS
    ensures Valid(MapItem(ws))
  {
    EntriesValid(ws);
  }

  /** Which slot the pair number `k` comes from. */
  function Nth(ws: seq<Slot>, k: nat): (i: nat)
    requires k < Present(ws)
    ensures i < |ws| && ws[i].value.Some?
  {
    if ws[0].value.None? then 1 + Nth(ws[1..], k)
    else if k == 0 then 0
    else 1 + Nth(ws[1..], k - 1)
  }

  lemma {:induction false} NthEntry(ws: seq<Slot>, k: nat)
    requires k < Present(ws)
    ensures var w := ws[Nth(ws, k)]; Entries(ws)[2 * k] == KeyItem(w.index) && Entries(ws)[2 * k + 1] == w.value.value
  {
    hide Entries, KeyItem;
    var rest := ws[1..];
    FirstEntry(ws, k);
    if ws[0].value.None? {
      NthEntry(rest, k);
      assert ws[Nth(ws, k)] == rest[Nth(rest, k)];
    } else if k > 0 {
      NthEntry(rest, k - 1);
      assert ws[Nth(ws, k)] == rest[Nth(rest, k - 1)];
    }
  }

  lemma {:induction false} FirstEntry(ws: seq<Slot>, k: nat)
    requires k < Present(ws)
    ensures ws[0].value.None? ==> Entries(ws) == Entries(ws[1..])
    ensures ws[0].value.Some? && k == 0 ==>
      Entries(ws)[2 * k] == KeyItem(ws[0].index) && Entries(ws)[2 * k + 1] == ws[0].value.value
    ensures ws[0].value.Some? && k > 0 ==>
      Entries(ws)[2 * k] == Entries(ws[1..])[2 * (k - 1)] && Entries(ws)[2 * k + 1] == Entries(ws[1..])[2 * (k - 1) + 1]
  {
    hide Entries, KeyItem;
    EntriesFrom(ws, 0);
    assert ws[0..] == ws;
    var rest := Entries(ws[1..]);
    if ws[0].value.Some? && k > 0 {
      PastPair(KeyItem(ws[0].index), ws[0].value.value, rest, 2 * (k - 1));
    } else if ws[0].value.None? {
      assert [] + rest == rest;
    }
  }

  lemma {:induction false} PastPair(a: Item, b: Item, rest: seq<Item>, m: nat)
    requires m + 1 < |rest|
    ensures ([a, b] + rest)[m + 2] == rest[m] && ([a, b] + rest)[m + 3] == rest[m + 1]
  {
  }

  lemma {:induction false} NthIncreases(ws: seq<Slot>, k: nat, l: nat)
    requires k < l < Present(ws)
    ensures Nth(ws, k) < Nth(ws, l)
  {
    if ws[0].value.None? {
      NthIncreases(ws[1..], k, l);
    } else if k > 0 {
      NthIncreases(ws[1..], k - 1, l - 1);
    }
  }

  /** The keys are written in strictly increasing bytewise order, hence each once (section 4.2.1 of RFC 8949). */
  lemma {:induction false} KeysIncrease(ws: seq<Slot>, k: nat, l: nat)
    requires ByKey(ws) && k < l < Present(ws)
    ensures var xs := Entries(ws);
            Valid(xs[2 * k]) && Valid(xs[2 * l]) && BytesLess(Encode(xs[2 * k]), Encode(xs[2 * l]))
  {
    hide BytesLess, Encode;
    NthEntry(ws, k);
    NthEntry(ws, l);
    NthIncreases(ws, k, l);
    KeyOrder(ws[Nth(ws, k)].index, ws[Nth(ws, l)].index);
  }

  // ----- decoding -----

  /** One round: the key says which field the value is for. */
  function PairRound<V>(buf: bytes, pos: nat, rs: seq<Field<V>>, locals: seq<Local<V>>): (r: Res<seq<Local<V>>>)
    requires |locals| == |rs|
    ensures r.Ok? ==> |r.value| == |rs|
  {
    match IntegerAt(buf, pos, I64)
    case Err(e, p) => Err(e, p)
    case Ok(key, p) => Round(buf, p, rs, key, locals)
  }

  function PairsFrom<V>(buf: bytes, pos: nat, rs: seq<Field<V>>, n: nat, locals: seq<Local<V>>): (r: Res<seq<Local<V>>>)
    requires |locals| == |rs|
    ensures r.Ok? ==> |r.value| == |rs|
    decreases n
  {
    if n == 0 then Ok(locals, pos)
    else match PairRound(buf, pos, rs, locals)
      case Ok(ls, p) => PairsFrom(buf, p, rs, n - 1, ls)
      case Err(e, p) => Err(e, p)
  }

  function PairsToBreak<V>(buf: bytes, pos: nat, rs: seq<Field<V>>, locals: seq<Local<V>>): (r: Res<seq<Local<V>>>)
    requires |locals| == |rs|
    ensures r.Ok? ==> |r.value| == |rs|
    decreases |buf| - pos
  {
    match DatatypeAt(buf, pos)
    case Err(e, p) => Err(e, p)
    case Ok(t, _) =>
      if t == Break then MapRes(SkipAt(buf, pos), _ => locals)
      else match PairRound(buf, pos, rs, locals)
        case Ok(ls, p) => if pos < p then PairsToBreak(buf, p, rs, ls) else Err(Message, p)
        case Err(e, p) => Err(e, p)
  }

  function LocalsFromMap<V>(buf: bytes, pos: nat, rs: seq<Field<V>>): (r: Res<seq<Local<V>>>)
    ensures r.Ok? ==> |r.value| == |rs|
  {
    match LengthAt(buf, pos, 5)
    case Err(e, p) => Err(e, p)
    case Ok(n, p) =>
      if n.Some? then PairsFrom(buf, p, rs, n.value, Initials(rs)) else PairsToBreak(buf, p, rs, Initials(rs))
  }

  function MapStructAt<V>(buf: bytes, pos: nat, rs: seq<Field<V>>): Res<seq<Option<V>>> {
    match LocalsFromMap(buf, pos, rs)
    case Err(e, p) => Err(e, p)
    case Ok(locals, p) => Build(rs, locals, p)
  }

  method DecodeMapStruct<V>(d: Decoder, rs: seq<Field<V>>) returns (r: Res<seq<Option<V>>>)
    modifies d`pos
    ensures r == MapStructAt(d.buf, old(d.pos), rs) && d.pos == r.pos
  {
    hide LengthAt, PairsFrom, PairsToBreak;
    var len := d.Length(5);
    if len.Err? {
      return Err(len.error, len.pos);
    }
    var ls;
    if len.value.Some? {
      ls := DecodePairs(d, rs, len.value.value);
    } else {
      ls := DecodePairsToBreak(d, rs);
    }
    if ls.Err? {
      return Err(ls.error, ls.pos);
    }
    r := Build(rs, ls.value, d.pos);
  }

  method DecodePairs<V>(d: Decoder, rs: seq<Field<V>>, n: nat) returns (r: Res<seq<Local<V>>>)
    modifies d`pos
    ensures r == PairsFrom(d.buf, old(d.pos), rs, n, Initials(rs)) && d.pos == r.pos
  {
    hide PairRound;
    var locals := Initials(rs);
    for i := 0 to n
      invariant |locals| == |rs|
      invariant PairsFrom(d.buf, d.pos, rs, n - i, locals) == PairsFrom(d.buf, old(d.pos), rs, n, Initials(rs))
    {
      var ls := DecodePair(d, rs, locals);
      if ls.Err? {
        return ls;
      }
      locals := ls.value;
    }
    r := Ok(locals, d.pos);
  }

  method DecodePairsToBreak<V>(d: Decoder, rs: seq<Field<V>>) returns (r: Res<seq<Local<V>>>)
    modifies d`pos
    ensures r == PairsToBreak(d.buf, old(d.pos), rs, Initials(rs)) && d.pos == r.pos
  {
    hide PairRound, SkipAt;
    var locals := Initials(rs);
    while true
      invariant |locals| == |rs|
      invariant PairsToBreak(d.buf, d.pos, rs, locals) == PairsToBreak(d.buf, old(d.pos), rs, Initials(rs))
      decreases |d.buf| - d.pos
    {
      var t := DatatypeAt(d.buf, d.pos);
      if t.Err? {
        return Err(t.error, d.pos);
      }
      if t.value == Break {
        var s := d.Skip();
        return MapRes(s, _ => locals);
      }
      var before := d.pos;
      var ls := DecodePair(d, rs, locals);
      if ls.Err? {
        return ls;
      }
      if d.pos <= before {
        return Err(Message, d.pos);
      }
      locals := ls.value;
    }
  }

  method DecodePair<V>(d: Decoder, rs: seq<Field<V>>, locals: seq<Local<V>>) returns (r: Res<seq<Local<V>>>)
    requires |locals| == |rs|
    modifies d`pos
    ensures r == PairRound(d.buf, old(d.pos), rs, locals) && d.pos == r.pos
  {
    hide IntegerAt, Round;
    var key := ReadInteger(d, I64);
    if key.Err? {
      return Err(key.error, key.pos);
    }
    r := DecodeElement(d, rs, key.value, locals);
  }

  // ----- reading what another schema wrote -----

  /** The locals once the pairs of these slots have been read. */
  function LocalsAfter<V>(ws: seq<Slot>, rs: seq<Field<V>>, sem: (int, Item) -> Option<V>): (ls: seq<Local<V>>)
    ensures |ls| == |rs|
    ensures forall j :: 0 <= j < |rs| ==>
      ls[j] == if Lookup(ws, rs[j].index).Some? then Some(Wanted(ws, rs[j], sem)) else Initial(rs[j])
  {
    seq(|rs|, j requires 0 <= j < |rs| =>
      if Lookup(ws, rs[j].index).Some? then Some(Wanted(ws, rs[j], sem)) else Initial(rs[j]))
  }

  /** The field this slot is for, if the reader has one, understands it or can do without. */
  predicate TakenBy<V>(w: Slot, rs: seq<Field<V>>, sem: (int, Item) -> Option<V>) {
    w.value.Some? && FieldAt(rs, w.index).Some? ==>
      rs[FieldAt(rs, w.index).value].optional || sem(w.index, w.value.value).Some?
  }

  /** Every field finds the items written for it as it expects them. */
  ghost predicate EachUnderstood<V(!new)>(ws: seq<Slot>, rs: seq<Field<V>>, sem: (int, Item) -> Option<V>)
    requires ValidSlots(ws)
  {
    forall i, j :: 0 <= i < |ws| && 0 <= j < |rs| && ws[i].index == rs[j].index && ws[i].value.Some? ==>
      Understands(rs[j], ws[i].value.value, sem(ws[i].index, ws[i].value.value))
  }

  /** The value of one pair. */
  lemma {:induction false} ValueRound<V(!new)>(
    buf: bytes, pos: nat, ws: seq<Slot>, rs: seq<Field<V>>, sem: (int, Item) -> Option<V>, k: nat)
    requires ValidSlots(ws) && Unique(ws) && EachUnderstood(ws, rs, sem) && |buf| <= U64_MAX
    requires k < |ws| && ws[k].value.Some? && At(buf, pos, Encode(ws[k].value.value))
    requires DistinctFields(rs)
    ensures var r := Round(buf, pos, rs, ws[k].index, LocalsAfter(ws[..k], rs, sem));
            if TakenBy(ws[k], rs, sem)
              then r == Ok(LocalsAfter(ws[..k + 1], rs, sem), pos + |Encode(ws[k].value.value)|) else r.Err?
  {
    hide SkipAt, ReadField, Encode, Valid, At, Understands;
    var x := ws[k].value.value;
    var was, now := LocalsAfter(ws[..k], rs, sem), LocalsAfter(ws[..k + 1], rs, sem);
    assert ws[..k + 1][..k] == ws[..k];
    match FieldAt(rs, ws[k].index)
    case None =>
      SkipsItem(buf, pos, x);
      assert now == was;
    case Some(j) =>
      assert Understands(rs[j], x, sem(rs[j].index, x));
      FieldReads(buf, pos, rs[j], Some(x), sem(rs[j].index, x));
      AboveAll(ws[..k], ws[k].index);
      assert now == was[j := Some(sem(rs[j].index, x))];
      if sem(rs[j].index, x) == None && rs[j].optional {
        assert was[j := Some(sem(rs[j].index, x))] == was;
      }
  }

  /** The pair in front of the remaining ones. */
  lemma {:induction false} PairFacts(buf: bytes, pos: nat, ws: seq<Slot>, k: nat)
    requires ValidSlots(ws) && k < |ws|
    requires ValidAll(Entries(ws[k..])) && At(buf, pos, EncodeAll(Entries(ws[k..])))
    ensures ValidAll(Entries(ws[k + 1..]))
    ensures Present(ws[k..]) == Present(ws[k + 1..]) + if ws[k].value.Some? then 1 else 0
    ensures ws[k].value.None? ==> Entries(ws[k..]) == Entries(ws[k + 1..])
    ensures ws[k].value.Some? ==>
      var p := pos + |Encode(KeyItem(ws[k].index))|;
      var q := p + |Encode(ws[k].value.value)|;
      At(buf, pos, Encode(KeyItem(ws[k].index))) && At(buf, p, Encode(ws[k].value.value))
      && At(buf, q, EncodeAll(Entries(ws[k + 1..])))
      && pos + |EncodeAll(Entries(ws[k..]))| == q + |EncodeAll(Entries(ws[k + 1..]))|
  {
    hide At, Encode, Valid;
    assert ws[k..][1..] == ws[k + 1..];
    var rest := Entries(ws[k + 1..]);
    assert ValidSlots(ws[k + 1..]);
    EntriesValid(ws[k + 1..]);
    if ws[k].value.Some? {
      EntryValid(ws[k]);
      EncodeAllConcat(Entry(ws[k]), rest);
      var key, val := Encode(KeyItem(ws[k].index)), Encode(ws[k].value.value);
      AtConcat(buf, pos, key + val, EncodeAll(rest));
      AtConcat(buf, pos, key, val);
    }
  }

  /** One pair: past it, with the locals of the next one, or failed if the value is not taken. */
  lemma {:induction false} PairReads<V(!new)>(
    buf: bytes, pos: nat, ws: seq<Slot>, rs: seq<Field<V>>, sem: (int, Item) -> Option<V>, k: nat)
    requires ValidSlots(ws) && Unique(ws) && EachUnderstood(ws, rs, sem) && |buf| <= U64_MAX
    requires DistinctFields(rs)
    requires k < |ws| && ws[k].value.Some? && At(buf, pos, Encode(KeyItem(ws[k].index)))
    requires At(buf, pos + |Encode(KeyItem(ws[k].index))|, Encode(ws[k].value.value))
    ensures var r := PairRound(buf, pos, rs, LocalsAfter(ws[..k], rs, sem));
            if TakenBy(ws[k], rs, sem)
            then r == Ok(LocalsAfter(ws[..k + 1], rs, sem),
              pos + |Encode(KeyItem(ws[k].index))| + |Encode(ws[k].value.value)|)
            else r.Err?
  {
    hide At, Encode, Valid, Round, IntegerAt, EachUnderstood, TakenBy;
    ReadsWhatFits(buf, pos, KeyItem(ws[k].index), I64);
    ValueRound(buf, pos + |Encode(KeyItem(ws[k].index))|, ws, rs, sem, k);
  }

  ghost predicate TakenFrom<V>(ws: seq<Slot>, rs: seq<Field<V>>, sem: (int, Item) -> Option<V>, k: nat) {
    forall i :: k <= i < |ws| ==> TakenBy(ws[i], rs, sem)
  }

  lemma {:induction false} TakenNone<V>(ws: seq<Slot>, rs: seq<Field<V>>, sem: (int, Item) -> Option<V>)
    ensures TakenFrom(ws, rs, sem, |ws|)
  {
  }

  lemma {:induction false} TakenSplit<V>(ws: seq<Slot>, rs: seq<Field<V>>, sem: (int, Item) -> Option<V>, k: nat)
    requires k < |ws|
    ensures TakenFrom(ws, rs, sem, k) <==> TakenBy(ws[k], rs, sem) && TakenFrom(ws, rs, sem, k + 1)
  {
    hide TakenBy;
  }

  lemma {:induction false} NilPasses<V>(ws: seq<Slot>, rs: seq<Field<V>>, sem: (int, Item) -> Option<V>, k: nat)
    requires Unique(ws) && k < |ws| && ws[k].value.None?
    ensures LocalsAfter(ws[..k + 1], rs, sem) == LocalsAfter(ws[..k], rs, sem) && TakenBy(ws[k], rs, sem)
  {
    assert ws[..k + 1][..k] == ws[..k];
    AboveAll(ws[..k], ws[k].index);
  }

  lemma {:induction false} PairsRead<V(!new)>(
    buf: bytes, pos: nat, ws: seq<Slot>, rs: seq<Field<V>>, sem: (int, Item) -> Option<V>, k: nat)
    requires ValidSlots(ws) && Unique(ws) && EachUnderstood(ws, rs, sem) && |buf| <= U64_MAX && k <= |ws|
    requires DistinctFields(rs)
    requires ValidAll(Entries(ws[k..])) && At(buf, pos, EncodeAll(Entries(ws[k..])))
    ensures var r := PairsFrom(buf, pos, rs, Present(ws[k..]), LocalsAfter(ws[..k], rs, sem));
            if TakenFrom(ws, rs, sem, k)
            then r == Ok(LocalsAfter(ws, rs, sem), pos + |EncodeAll(Entries(ws[k..]))|) else r.Err?
    decreases |ws| - k
  {
    hide At, Encode, Valid, PairRound, EachUnderstood, TakenBy, EncodeAll, Entries, Present, TakenFrom;
    if k == |ws| {
      assert ws[..k] == ws;
      NoEntries(ws);
      NoElements();
      TakenNone(ws, rs, sem);
    } else {
      PairFacts(buf, pos, ws, k);
      TakenSplit(ws, rs, sem, k);
      if ws[k].value.None? {
        NilPasses(ws, rs, sem, k);
        PairsRead(buf, pos, ws, rs, sem, k + 1);
      } else {
        PairReads(buf, pos, ws, rs, sem, k);
        PairsRead(buf, pos + |Encode(KeyItem(ws[k].index))| + |Encode(ws[k].value.value)|, ws, rs, sem, k + 1);
      }
    }
  }

  lemma {:induction false} PairsEnd<V>(buf: bytes, pos: nat, rs: seq<Field<V>>, locals: seq<Local<V>>)
    requires |locals| == |rs| && At(buf, pos, [BREAK])
    ensures PairsToBreak(buf, pos, rs, locals) == Ok(locals, pos + 1)
  {
    hide At, SkipAt, DatatypeAt;
    SkipsBreak(buf, pos);
  }

  lemma {:induction false} PairsGoOn<V>(buf: bytes, pos: nat, x: Item, rs: seq<Field<V>>, locals: seq<Local<V>>)
    requires |locals| == |rs| && Valid(x) && At(buf, pos, Encode(x))
    ensures Encode(x) != []
    ensures match PairRound(buf, pos, rs, locals)
      case Ok(ls, p) => pos < p ==> PairsToBreak(buf, pos, rs, locals) == PairsToBreak(buf, p, rs, ls)
      case Err(e, p) => PairsToBreak(buf, pos, rs, locals) == Err(e, p)
  {
    hide At, Encode, Valid, PairRound, DatatypeAt;
    DatatypeOfItem(buf, pos, x);
    FirstByte(x);
  }

  lemma {:induction false} PairsReadToBreak<V(!new)>(
    buf: bytes, pos: nat, ws: seq<Slot>, rs: seq<Field<V>>, sem: (int, Item) -> Option<V>, k: nat)
    requires ValidSlots(ws) && Unique(ws) && EachUnderstood(ws, rs, sem) && |buf| <= U64_MAX && k <= |ws|
    requires DistinctFields(rs)
    requires ValidAll(Entries(ws[k..])) && At(buf, pos, EncodeAll(Entries(ws[k..])))
    requires At(buf, pos + |EncodeAll(Entries(ws[k..]))|, [BREAK])
    ensures var r := PairsToBreak(buf, pos, rs, LocalsAfter(ws[..k], rs, sem));
            if TakenFrom(ws, rs, sem, k)
            then r == Ok(LocalsAfter(ws, rs, sem), pos + |EncodeAll(Entries(ws[k..]))| + 1) else r.Err?
    decreases |ws| - k
  {
    hide At, Encode, Valid, PairRound, EachUnderstood, TakenBy, EncodeAll, PairsToBreak, Entries, Present, TakenFrom;
    if k == |ws| {
      assert ws[..k] == ws;
      NoEntries(ws);
      NoElements();
      PairsEnd(buf, pos, rs, LocalsAfter(ws, rs, sem));
      TakenNone(ws, rs, sem);
    } else {
      PairFacts(buf, pos, ws, k);
      TakenSplit(ws, rs, sem, k);
      if ws[k].value.None? {
        NilPasses(ws, rs, sem, k);
        PairsReadToBreak(buf, pos, ws, rs, sem, k + 1);
      } else {
        var key := KeyItem(ws[k].index);
        PairsGoOn(buf, pos, key, rs, LocalsAfter(ws[..k], rs, sem));
        PairReads(buf, pos, ws, rs, sem, k);
        PairsReadToBreak(buf, pos + |Encode(key)| + |Encode(ws[k].value.value)|, ws, rs, sem, k + 1);
      }
    }
  }

  lemma {:induction false} BeforeAll<V>(ws: seq<Slot>, rs: seq<Field<V>>, sem: (int, Item) -> Option<V>)
    ensures ws[0..] == ws && LocalsAfter(ws[..0], rs, sem) == Initials(rs)
  {
    assert ws[..0] == [];
  }

  lemma {:induction false} PairsAnnounced(ws: seq<Slot>)
    ensures Announced(true, |Entries(ws)|) == Present(ws)
  {
  }

  /** Reading the map itself, of definite length. */
  lemma {:induction false} MapRead<V(!new)>(
    buf: bytes, pos: nat, ws: seq<Slot>, rs: seq<Field<V>>, sem: (int, Item) -> Option<V>, x: Item)
    requires ValidSlots(ws) && Unique(ws) && EachUnderstood(ws, rs, sem) && |buf| <= U64_MAX && |ws| <= MAX_FIELDS
    requires DistinctFields(rs)
    requires x == MapItem(ws) && Valid(x) && At(buf, pos, Encode(x))
    ensures if TakenFrom(ws, rs, sem, 0)
            then LocalsFromMap(buf, pos, rs) == Ok(LocalsAfter(ws, rs, sem), pos + |Encode(x)|)
            else LocalsFromMap(buf, pos, rs).Err?
  {
    hide At, Encode, Valid, PairsFrom, PairsToBreak, EncodeAll, TakenFrom, EachUnderstood, LengthAt, Entries, Present,
      LocalsAfter, Announced;
    EntriesValid(ws);
    BeforeAll(ws, rs, sem);
    PairsAnnounced(ws);
    CollStarts(buf, pos, x);
    PairsRead(buf, pos + 1 + x.w.Extra(), ws, rs, sem, 0);
  }

  /** And of indefinite length. */
  lemma {:induction false} MapReadToBreak<V(!new)>(
    buf: bytes, pos: nat, ws: seq<Slot>, rs: seq<Field<V>>, sem: (int, Item) -> Option<V>, x: Item)
    requires ValidSlots(ws) && Unique(ws) && EachUnderstood(ws, rs, sem) && |buf| <= U64_MAX
    requires DistinctFields(rs)
    requires x == CollIndef(true, Entries(ws)) && Valid(x) && At(buf, pos, Encode(x))
    ensures if TakenFrom(ws, rs, sem, 0)
            then LocalsFromMap(buf, pos, rs) == Ok(LocalsAfter(ws, rs, sem), pos + |Encode(x)|)
            else LocalsFromMap(buf, pos, rs).Err?
  {
    hide At, Encode, Valid, PairsFrom, PairsToBreak, EncodeAll, TakenFrom, EachUnderstood, LengthAt, Entries, Present,
      LocalsAfter, Announced;
    EntriesValid(ws);
    BeforeAll(ws, rs, sem);
    CollIndefStarts(buf, pos, x);
    PairsReadToBreak(buf, pos + 1, ws, rs, sem, 0);
  }

  /** Such a reader understands each slot in its place. */
  lemma {:induction false} ReadableHere<V(!new)>(ws: seq<Slot>, rs: seq<Field<V>>, sem: (int, Item) -> Option<V>)
    requires ValidSlots(ws) && Unique(ws) && Readable(ws, rs, sem)
    ensures EachUnderstood(ws, rs, sem)
  {
    hide Understands, Valid;
    forall i, j | 0 <= i < |ws| && 0 <= j < |rs| && ws[i].index == rs[j].index && ws[i].value.Some?
      ensures Understands(rs[j], ws[i].value.value, sem(ws[i].index, ws[i].value.value))
    {
      UniqueLookup(ws, i);
      assert Lookup(ws, rs[j].index).Some?;
    }
  }

  lemma {:induction false} UniqueLookup(ws: seq<Slot>, j: nat)
    requires Unique(ws) && j < |ws|
    ensures Lookup(ws, ws[j].index) == ws[j].value
  {
    if j < |ws| - 1 {
      UniqueLookup(ws[..|ws| - 1], j);
    }
  }

  lemma {:induction false} LookupIsSlot(ws: seq<Slot>, index: int)
    requires Lookup(ws, index).Some?
    ensures exists i :: 0 <= i < |ws| && ws[i].index == index && ws[i].value == Lookup(ws, index)
  {
    var k := |ws| - 1;
    if ws[k].index != index {
      LookupIsSlot(ws[..k], index);
    }
  }

  /** Every slot is taken and every field the reader insists on is there: together, every field is satisfied. */
  lemma {:induction false} TakenAndThere<V(!new)>(ws: seq<Slot>, rs: seq<Field<V>>, sem: (int, Item) -> Option<V>)
    requires Unique(ws) && DistinctFields(rs)
    ensures TakenFrom(ws, rs, sem, 0) && (forall j :: 0 <= j < |rs| ==> LocalsAfter(ws, rs, sem)[j].Some?)
       <==> forall j :: 0 <= j < |rs| ==> Satisfied(ws, rs[j], sem)
  {
    forall j | 0 <= j < |rs| && TakenFrom(ws, rs, sem, 0) && LocalsAfter(ws, rs, sem)[j].Some?
      ensures Satisfied(ws, rs[j], sem)
    {
      if Lookup(ws, rs[j].index).Some? {
        LookupIsSlot(ws, rs[j].index);
        var i :| 0 <= i < |ws| && ws[i].index == rs[j].index && ws[i].value == Lookup(ws, rs[j].index);
        assert TakenBy(ws[i], rs, sem);
      }
    }
    if forall j :: 0 <= j < |rs| ==> Satisfied(ws, rs[j], sem) {
      forall i | 0 <= i < |ws| ensures TakenBy(ws[i], rs, sem) {
        UniqueLookup(ws, i);
      }
    }
  }

  /**
    Forward and backward compatibility of map encoding, whatever order the pairs come in: the same statement as for
    arrays, so a struct reads back the same under either encoding.
   */
  lemma {:induction false} MapReadsAcrossSchemas<V(!new)>(
    buf: bytes, pos: nat, ws: seq<Slot>, rs: seq<Field<V>>, sem: (int, Item) -> Option<V>, x: Item)
    requires Unique(ws) && ValidSlots(ws) && |ws| <= MAX_FIELDS && Readable(ws, rs, sem) && |buf| <= U64_MAX
    requires x == MapItem(ws) || x == CollIndef(true, Entries(ws))
    requires Valid(x) && At(buf, pos, Encode(x))
    ensures MapStructAt(buf, pos, rs).Ok? <==> forall j :: 0 <= j < |rs| ==> Satisfied(ws, rs[j], sem)
    ensures MapStructAt(buf, pos, rs).Ok? ==>
      MapStructAt(buf, pos, rs).pos == pos + |Encode(x)|
      && |MapStructAt(buf, pos, rs).value| == |rs|
      && forall j :: 0 <= j < |rs| ==> MapStructAt(buf, pos, rs).value[j] == Wanted(ws, rs[j], sem)
  {
    hide At, LocalsFromMap, Encode, Valid, EachUnderstood, TakenFrom, Understands;
    ReadableHere(ws, rs, sem);
    if x.Coll? {
      MapRead(buf, pos, ws, rs, sem, x);
    } else {
      MapReadToBreak(buf, pos, ws, rs, sem, x);
    }
    TakenAndThere(ws, rs, sem);
  }
}
