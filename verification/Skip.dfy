/**
  Skipping one data item without decoding it. The decoder counts outstanding items and open indefinite
  containers, and falls back on a stack when an indefinite container opens inside a definite one. The
  counters under-count below an open indefinite container; `Sim` is the relation that makes up for it.
 */
module Skip {
  import opened Wire
  import opened Items
  import opened Reads

  // ----- one round of the skip loop -----

  /** What the skip loop sees at a position: a whole leaf, a container head, a tag head or a break. */
  datatype Event = Leaf | Open(count: Option<nat>) | TagHead | Close

  /** The head of a container announcing `n` elements (pairs, for a map) opens that many items. */
  function OpenCount(isMap: bool, n: Option<nat>): Option<nat> {
    match n
    case None => None
    case Some(k) => Some(if isMap then SatMul2(k) else k)
  }

  function EventAt(buf: bytes, pos: nat): (r: Res<Event>)
    ensures r.Ok? ==> pos < r.pos <= |buf|
    ensures r.pos >= pos && (pos <= |buf| ==> r.pos <= |buf|)
  {
    if pos >= |buf| then Err(EndOfInput, pos)
    else
      var b := buf[pos];
      if b <= 0x1b then MapRes(ArgumentAt(buf, pos, 0), _ => Leaf)
      else if 0x20 <= b <= 0x3b then MapRes(ArgumentAt(buf, pos, 1), _ => Leaf)
      else if 0x40 <= b <= 0x5f then MapRes(StringsAt(buf, pos, false), _ => Leaf)
      else if 0x60 <= b <= 0x7f then MapRes(StringsAt(buf, pos, true), _ => Leaf)
      else if 0x80 <= b <= 0x9f then MapRes(LengthAt(buf, pos, 4), n => Open(OpenCount(false, n)))
      else if 0xa0 <= b <= 0xbf then MapRes(LengthAt(buf, pos, 5), n => Open(OpenCount(true, n)))
      else if 0xc0 <= b <= 0xdb then MapRes(ArgumentAt(buf, pos, 6), _ => TagHead)
      else if 0xe0 <= b <= 0xfb then MapRes(ArgumentAt(buf, pos, 7), _ => Leaf)
      else if b == BREAK then Ok(Close, pos + 1)
      else Mismatch(buf, pos, b)
  }

  // Saturating arithmetic on u64.
  function SatAdd(a: nat, b: nat): nat { if a + b > U64_MAX then U64_MAX else a + b }
  function SatMul2(a: nat): nat { if 2 * a > U64_MAX then U64_MAX else 2 * a }
  function Dec(a: nat): nat { if a == 0 then 0 else a - 1 }

  type Stack = seq<Option<nat>>

  /** The loop's variables: `nrounds`, `irounds` and `stack`. */
  datatype State = State(n: nat, i: nat, stack: Stack) {
    predicate Idle() { n == 0 && i == 0 }
    predicate Done() { Idle() && stack == [] }
    /** Once the stack is in use the counters stay zero. */
    ghost predicate Inv() { stack == [] || Idle() }
  }

  const START := State(1, 0, [])

  function Nones(k: nat): (s: Stack)
    ensures |s| == k
  {
    if k == 0 then [] else Nones(k - 1) + [None]
  }

  /** Drop finished containers from the top of the stack. */
  function PopZeros(s: Stack): (r: Stack)
    ensures r == [] || r[|r| - 1] != Some(0)
  {
    if s != [] && s[|s| - 1] == Some(0) then PopZeros(s[..|s| - 1]) else s
  }

  /** What a finished item does to the stack: close finished containers and count it in the one below. */
  function CountDown(s: Stack): Stack {
    var r := PopZeros(s);
    if r != [] && r[|r| - 1].Some? then r[|r| - 1 := Some(r[|r| - 1].value - 1)] else r
  }

  /** The end of a loop round. */
  function Settle(s: State): State {
    if s.Idle() then s.(stack := CountDown(s.stack)) else s.(n := Dec(s.n))
  }

  function Advance(s: State, ev: Event): State {
    match ev
    case TagHead => s
    case Leaf => Settle(s)
    case Open(Some(k)) =>
      if k == 0 then Settle(s)
      else if s.Idle() then Settle(s.(stack := s.stack + [Some(k)]))
      else Settle(s.(n := SatAdd(s.n, k)))
    case Open(None) =>
      if s.Idle() then Settle(s.(stack := s.stack + [None]))
      else if s.n < 2 then Settle(s.(i := SatAdd(s.i, 1)))
      else Settle(State(0, 0, s.stack + Nones(s.i) + [Some(s.n - 1)] + [None]))
    case Close =>
      if !s.Idle() then Settle(s.(i := Dec(s.i)))
      else if s.stack != [] && s.stack[|s.stack| - 1] == None then Settle(s.(stack := s.stack[..|s.stack| - 1]))
      else Settle(s)
  }

  /** The loop, from any state. */
  function Run(buf: bytes, pos: nat, s: State): (r: Res<()>)
    ensures r.pos >= pos && (pos <= |buf| ==> r.pos <= |buf|)
    decreases |buf| - pos
  {
    if s.Done() then Ok((), pos)
    else match EventAt(buf, pos)
      case Err(e, p) => Err(e, p)
      case Ok(ev, p) => Run(buf, p, Advance(s, ev))
  }

  function SkipAt(buf: bytes, pos: nat): Res<()> {
    Run(buf, pos, START)
  }

  // ----- items outstanding per indefinite level -----

  /** Items outstanding at each level once the item in progress on top is finished. */
  function Below(s: Stack): (t: seq<nat>)
    ensures t != []
  {
    if s == [] then [0]
    else
      var t := Below(s[..|s| - 1]);
      match s[|s| - 1]
      case None => t + [0]
      case Some(k) => t[|t| - 1 := t[|t| - 1] + k]
  }

  function Zeros(k: nat): (t: seq<nat>)
    ensures |t| == k && forall j :: 0 <= j < k ==> t[j] == 0
  {
    seq(k, _ => 0)
  }

  /** Items outstanding at each level: level 0 outside all indefinite containers, the last one innermost. */
  function Totals(s: State): (t: seq<nat>)
    ensures t != []
  {
    if s.stack == [] then Zeros(s.i) + [s.n]
    else
      var t := Below(s.stack);
      if s.stack[|s.stack| - 1].Some? then t[|t| - 1 := t[|t| - 1] + 1] else t
  }

  function Finish(t: seq<nat>): (r: seq<nat>)
    requires t != []
    ensures |r| == |t|
  {
    t[|t| - 1 := Dec(t[|t| - 1])]
  }

  function Grow(t: seq<nat>, k: nat): (r: seq<nat>)
    requires t != []
    ensures |r| == |t|
  {
    t[|t| - 1 := t[|t| - 1] + k]
  }

  lemma {:induction false} BelowPopZeros(s: Stack)
    ensures Below(PopZeros(s)) == Below(s)
  {
    if s != [] && s[|s| - 1] == Some(0) {
      BelowPopZeros(s[..|s| - 1]);
    }
  }

  lemma {:induction false} BelowPush(s: Stack, e: Option<nat>)
    ensures e == None ==> Below(s + [e]) == Below(s) + [0]
    ensures e.Some? ==> Below(s + [e]) == Grow(Below(s), e.value)
  {
    assert (s + [e])[..|s|] == s;
  }

  lemma {:induction false} BelowNones(k: nat)
    ensures Below(Nones(k)) == Zeros(k + 1)
  {
    if k > 0 {
      BelowNones(k - 1);
      BelowPush(Nones(k - 1), None);
      assert Zeros(k) + [0] == Zeros(k + 1);
    } else {
      assert Zeros(1) == [0];
    }
  }

  lemma {:induction false} GrowTwice(t: seq<nat>, j: nat, k: nat)
    requires t != []
    ensures Grow(Grow(t, j), k) == Grow(t, j + k)
  {
  }

  lemma {:induction false} TotalsPush(base: Stack, k: nat)
    ensures Totals(State(0, 0, base + [Some(k)])) == Grow(Below(base), k + 1)
  {
    hide Below;
    BelowPush(base, Some(k));
    GrowTwice(Below(base), k, 1);
    assert (base + [Some(k)])[|base + [Some(k)]| - 1] == Some(k);
    assert Totals(State(0, 0, base + [Some(k)])) == Grow(Below(base + [Some(k)]), 1);
  }

  /** Counting a finished item down turns "once the top is finished" into "now". */
  lemma {:induction false} SettleStack(s: State)
    requires s.Idle()
    ensures Settle(s).Inv() && Settle(s).Idle() && Totals(Settle(s)) == Below(s.stack)
  {
    hide Below, PopZeros;
    var r := PopZeros(s.stack);
    BelowPopZeros(s.stack);
    if r == [] {
      BelowNones(0);
      assert Nones(0) == [] && Zeros(0) + [0] == Zeros(1);
    } else {
      var base, e := r[..|r| - 1], r[|r| - 1];
      assert r == base + [e];
      BelowPush(base, e);
      if e.Some? {
        assert CountDown(s.stack) == base + [Some(e.value - 1)];
        TotalsPush(base, e.value - 1);
      }
    }
  }

  lemma {:induction false} BelowIsFinish(s: State)
    requires s.Idle() && s.stack != []
    ensures Below(s.stack) == Finish(Totals(s))
  {
    var t := Below(s.stack);
    if s.stack[|s.stack| - 1].Some? {
      assert Finish(Totals(s)) == t;
    } else {
      assert t[|t| - 1] == 0;
      assert Finish(t) == t;
    }
  }

  // ----- the simulation relation -----

  /**
    State `s` stands for outstanding counts `t`: exactly at level 0, and from below at every level inside
    an indefinite container, where only the break byte matters.
   */
  ghost predicate Sim(s: State, t: seq<nat>) {
    && s.Inv() && t != []
    && |Totals(s)| == |t|
    && Totals(s)[0] == t[0]
    && forall j :: 0 <= j < |t| ==> Totals(s)[j] <= t[j]
  }

  lemma {:induction false} SimDone(s: State, t: seq<nat>)
    requires Sim(s, t)
    ensures s.Done() <==> t == [0]
  {
    if s.stack != [] {
      var base, e := s.stack[..|s.stack| - 1], s.stack[|s.stack| - 1];
      assert s.stack == base + [e];
      BelowPush(base, e);
    }
  }

  lemma {:induction false} StepLeaf(s: State, t: seq<nat>)
    requires Sim(s, t) && !s.Done()
    ensures Sim(Advance(s, Leaf), Finish(t))
  {
    if s.Idle() {
      SettleStack(s);
      BelowIsFinish(s);
    }
  }

  lemma {:induction false} StepOpen(s: State, t: seq<nat>, k: nat)
    requires Sim(s, t) && !s.Done()
    requires t[|t| - 1] + k <= U64_MAX
    ensures Sim(Advance(s, Open(Some(k))), Grow(Finish(t), k))
  {
    if k == 0 {
      StepLeaf(s, t);
      assert Grow(Finish(t), 0) == Finish(t);
    } else if s.Idle() {
      SettleStack(s.(stack := s.stack + [Some(k)]));
      BelowPush(s.stack, Some(k));
      BelowIsFinish(s);
    } else {
      assert s.stack == [];
    }
  }

  lemma {:induction false} StepOpenIndef(s: State, t: seq<nat>)
    requires Sim(s, t) && !s.Done() && |t| <= U64_MAX
    ensures Sim(Advance(s, Open(None)), Finish(t) + [0])
  {
    hide Below, CountDown, PopZeros, Nones;
    if s.Idle() {
      SettleStack(s.(stack := s.stack + [None]));
      BelowPush(s.stack, None);
      BelowIsFinish(s);
    } else if s.n < 2 {
      assert Advance(s, Open(None)) == State(0, s.i + 1, []);
    } else {
      SwitchToStack(s.n, s.i);
      assert s.stack + Nones(s.i) == Nones(s.i);
      SettleStack(State(0, 0, Nones(s.i) + [Some(s.n - 1)] + [None]));
    }
  }

  /** Moving the counters onto the stack keeps the counts, less the container that just opened. */
  lemma {:induction false} SwitchToStack(n: nat, i: nat)
    requires n >= 2
    ensures Below(Nones(i) + [Some(n - 1)] + [None]) == Zeros(i) + [n - 1] + [0]
  {
    var bottom := Nones(i);
    BelowNones(i);
    BelowPush(bottom, Some(n - 1));
    BelowPush(bottom + [Some(n - 1)], None);
    assert Grow(Zeros(i + 1), n - 1) == Zeros(i) + [n - 1];
  }

  lemma {:induction false} StepClose(s: State, t: seq<nat>)
    requires Sim(s, t) && |t| > 1 && t[|t| - 1] == 0
    ensures Sim(Advance(s, Close), t[..|t| - 1])
  {
    assert Totals(s)[|t| - 1] == 0;
    if s.Idle() {
      var base, e := s.stack[..|s.stack| - 1], s.stack[|s.stack| - 1];
      assert s.stack == base + [e];
      BelowPush(base, e);
      SettleStack(s.(stack := base));
    } else {
      assert Advance(s, Close) == State(0, s.i - 1, []);
    }
  }

  // ----- well-formed items are skipped exactly -----

  predicate IsLeaf(x: Item) {
    x.Num? || x.Str? || x.StrIndef? || x.Prim?
  }

  lemma {:induction false} LeafEvent(buf: bytes, pos: nat, x: Item)
    requires Valid(x) && IsLeaf(x) && At(buf, pos, Encode(x))
    ensures EventAt(buf, pos) == Ok(Leaf, pos + |Encode(x)|)
  {
    hide At, Head, UnsignedAt, ChunksAt, EncodeChunks, Utf8;
    match x
    case Num(neg, w, n) => HeadReads(buf, pos, if neg then 1 else 0, w, n);
    case Str(text, c) =>
      var h := Head(StrMajor(text), c.w, |c.data|);
      ChunkReads(buf, pos, text, c);
      AtConcat(buf, pos, h, c.data);
      HeadReads(buf, pos, StrMajor(text), c.w, |c.data|);
    case StrIndef(text, cs) => IndefStringReads(buf, pos, text, cs);
    case Prim(w, n) => HeadReads(buf, pos, 7, w, n);
  }

  lemma {:induction false} OpenEvent(buf: bytes, pos: nat, x: Item)
    requires Valid(x) && x.Coll? && At(buf, pos, Encode(x)) && |buf| <= U64_MAX
    ensures At(buf, pos + 1 + x.w.Extra(), EncodeAll(x.items))
    ensures EventAt(buf, pos) == Ok(Open(Some(|x.items|)), pos + 1 + x.w.Extra())
  {
    hide Head, UnsignedAt, EncodeAll, EncodeChunks, StringsAt, Utf8;
    var n := Announced(x.isMap, |x.items|);
    var h := Head(CollMajor(x.isMap), x.w, n);
    AtConcat(buf, pos, h, EncodeAll(x.items));
    HeadReads(buf, pos, CollMajor(x.isMap), x.w, n);
    EncodeAllLength(x.items);
  }

  lemma {:induction false} OpenIndefEvent(buf: bytes, pos: nat, x: Item)
    requires Valid(x) && x.CollIndef? && At(buf, pos, Encode(x))
    ensures EventAt(buf, pos) == Ok(Open(None), pos + 1)
    ensures At(buf, pos + 1, EncodeAll(x.items))
    ensures EventAt(buf, pos + 1 + |EncodeAll(x.items)|) == Ok(Close, pos + |Encode(x)|)
  {
    hide At, EncodeAll, StringsAt, UnsignedAt;
    var h: byte := IndefHead(CollMajor(x.isMap));
    assert Encode(x) == [h] + (EncodeAll(x.items) + [BREAK]);
    AtConcat(buf, pos, [h], EncodeAll(x.items) + [BREAK]);
    AtConcat(buf, pos + 1, EncodeAll(x.items), [BREAK]);
    AtByte(buf, pos, h);
    AtByte(buf, pos + 1 + |EncodeAll(x.items)|, BREAK);
  }

  lemma {:induction false} TagEvent(buf: bytes, pos: nat, x: Item)
    requires Valid(x) && x.Tagged? && At(buf, pos, Encode(x))
    ensures EventAt(buf, pos) == Ok(TagHead, pos + 1 + x.w.Extra())
    ensures At(buf, pos + 1 + x.w.Extra(), Encode(x.content)) && Valid(x.content)
    ensures |Encode(x)| == 1 + x.w.Extra() + |Encode(x.content)|
  {
    AtConcat(buf, pos, Head(6, x.w, x.tag), Encode(x.content));
    HeadReads(buf, pos, 6, x.w, x.tag);
  }

  lemma {:induction false} TagCountsNothing(s: State)
    ensures Advance(s, TagHead) == s
  {
  }

  function FinishMany(t: seq<nat>, k: nat): (r: seq<nat>)
    requires t != []
    ensures |r| == |t|
  {
    t[|t| - 1 := if t[|t| - 1] < k then 0 else t[|t| - 1] - k]
  }

  lemma {:induction false} RunStep(buf: bytes, pos: nat, s: State, t: seq<nat>, ev: Event, p: nat)
    requires Sim(s, t) && t != [0] && EventAt(buf, pos) == Ok(ev, p)
    ensures !s.Done() && Run(buf, pos, s) == Run(buf, p, Advance(s, ev))
  {
    SimDone(s, t);
  }

  /** From any state, the loop reaches the end of a well-formed item having counted exactly one item. */
  lemma {:induction false} RunOverItem(buf: bytes, pos: nat, x: Item, s: State, t: seq<nat>) returns (s': State)
    requires Valid(x) && At(buf, pos, Encode(x)) && |buf| <= U64_MAX
    requires t != [] && Sim(s, t) && t != [0]
    requires t[|t| - 1] + |Encode(x)| <= U64_MAX + 1 && |t| + |Encode(x)| <= U64_MAX + 1
    ensures Sim(s', Finish(t))
    ensures Run(buf, pos, s) == Run(buf, pos + |Encode(x)|, s')
    decreases x, 1
  {
    hide Sim, Run, Advance, Totals, EventAt, At, Encode, Valid;
    match x
    case Coll(isMap, w, xs) =>
      s' := RunOverColl(buf, pos, x, s, t);
    case CollIndef(isMap, xs) =>
      s' := RunOverCollIndef(buf, pos, x, s, t);
    case Tagged(w, tag, y) =>
      TagEvent(buf, pos, x);
      RunStep(buf, pos, s, t, TagHead, pos + 1 + w.Extra());
      TagCountsNothing(s);
      s' := RunOverItem(buf, pos + 1 + w.Extra(), y, s, t);
    case _ =>
      LeafEvent(buf, pos, x);
      RunStep(buf, pos, s, t, Leaf, pos + |Encode(x)|);
      StepLeaf(s, t);
      s' := Advance(s, Leaf);
  }

  lemma {:induction false} RunOverColl(buf: bytes, pos: nat, x: Item, s: State, t: seq<nat>) returns (s': State)
    requires x.Coll? && Valid(x) && At(buf, pos, Encode(x)) && |buf| <= U64_MAX
    requires t != [] && Sim(s, t) && t != [0]
    requires t[|t| - 1] + |Encode(x)| <= U64_MAX + 1 && |t| + |Encode(x)| <= U64_MAX + 1
    ensures Sim(s', Finish(t))
    ensures Run(buf, pos, s) == Run(buf, pos + |Encode(x)|, s')
    decreases x, 0
  {
    hide Sim, Run, Advance, Totals, EventAt, At;
    var xs, p := x.items, pos + 1 + x.w.Extra();
    OpenEvent(buf, pos, x);
    EncodeAllLength(xs);
    RunStep(buf, pos, s, t, Open(Some(|xs|)), p);
    StepOpen(s, t, |xs|);
    s' := RunOverItems(buf, p, xs, Advance(s, Open(Some(|xs|))), Grow(Finish(t), |xs|));
    assert FinishMany(Grow(Finish(t), |xs|), |xs|) == Finish(t);
  }

  lemma {:induction false} RunOverCollIndef(buf: bytes, pos: nat, x: Item, s: State, t: seq<nat>) returns (s': State)
    requires x.CollIndef? && Valid(x) && At(buf, pos, Encode(x)) && |buf| <= U64_MAX
    requires t != [] && Sim(s, t) && t != [0]
    requires t[|t| - 1] + |Encode(x)| <= U64_MAX + 1 && |t| + |Encode(x)| <= U64_MAX + 1
    ensures Sim(s', Finish(t))
    ensures Run(buf, pos, s) == Run(buf, pos + |Encode(x)|, s')
    decreases x, 0
  {
    hide Sim, Run, Advance, Totals, EventAt, At;
    var xs, t1 := x.items, Finish(t) + [0];
    OpenIndefEvent(buf, pos, x);
    RunStep(buf, pos, s, t, Open(None), pos + 1);
    StepOpenIndef(s, t);
    var s1 := RunOverItems(buf, pos + 1, xs, Advance(s, Open(None)), t1);
    assert FinishMany(t1, |xs|) == t1;
    RunStep(buf, pos + 1 + |EncodeAll(xs)|, s1, t1, Close, pos + |Encode(x)|);
    StepClose(s1, t1);
    assert t1[..|t1| - 1] == Finish(t);
    s' := Advance(s1, Close);
  }

  lemma {:induction false} RunOverItems(buf: bytes, pos: nat, xs: seq<Item>, s: State, t: seq<nat>) returns (s': State)
    requires ValidAll(xs) && At(buf, pos, EncodeAll(xs)) && |buf| <= U64_MAX
    requires t != [] && Sim(s, t) && (|t| == 1 ==> t[0] >= |xs|)
    requires t[|t| - 1] + |EncodeAll(xs)| <= U64_MAX + |xs| && |t| + |EncodeAll(xs)| <= U64_MAX + 1
    ensures Sim(s', FinishMany(t, |xs|))
    ensures Run(buf, pos, s) == Run(buf, pos + |EncodeAll(xs)|, s')
    decreases xs, 0
  {
    hide Sim, Run, Advance, Totals, EventAt, At;
    if xs == [] {
      s' := s;
      assert FinishMany(t, 0) == t;
    } else {
      AtConcat(buf, pos, Encode(xs[0]), EncodeAll(xs[1..]));
      FirstByte(xs[0]);
      EncodeAllLength(xs[1..]);
      var s1 := RunOverItem(buf, pos, xs[0], s, t);
      s' := RunOverItems(buf, pos + |Encode(xs[0])|, xs[1..], s1, Finish(t));
      assert FinishMany(Finish(t), |xs| - 1) == FinishMany(t, |xs|);
    }
  }

  lemma {:induction false} StartSim()
    ensures Sim(START, [1])
  {
    assert Totals(START) == [1];
  }

  /** Every well-formed item, however nested and whatever follows it, is skipped exactly to its end. */
  lemma {:induction false} SkipsItem(buf: bytes, pos: nat, x: Item)
    requires Valid(x) && At(buf, pos, Encode(x)) && |buf| <= U64_MAX
    ensures SkipAt(buf, pos) == Ok((), pos + |Encode(x)|)
  {
    hide Sim, Encode, Valid, EventAt, Advance;
    StartSim();
    var s' := RunOverItem(buf, pos, x, START, [1]);
    assert Finish([1]) == [0];
    SimDone(s', [0]);
  }
}
