/**
  Skipping on inputs that need not be well-formed: the loop without a stack against the one with it,
  truncated inputs, and what a successful skip says about the bytes it passed over.
 */
module SkipOnAnyInput {
  import opened Wire
  import opened Items
  import opened Reads
  import opened Parse
  import opened Skip

  // ----- the variant without allocation -----

  /** The loop of the variant that keeps two counters and no stack. */
  function RunNoAlloc(buf: bytes, pos: nat, n: nat, i: nat): Res<()>
    decreases |buf| - pos
  {
    if n == 0 && i == 0 then Ok((), pos)
    else match EventAt(buf, pos)
      case Err(e, p) => Err(e, p)
      case Ok(TagHead, p) => RunNoAlloc(buf, p, n, i)
      case Ok(Leaf, p) => RunNoAlloc(buf, p, Dec(n), i)
      case Ok(Open(Some(k)), p) => RunNoAlloc(buf, p, Dec(SatAdd(n, k)), i)
      case Ok(Open(None), p) => if n < 2 then RunNoAlloc(buf, p, Dec(n), SatAdd(i, 1)) else Err(NeedsAlloc, p)
      case Ok(Close, p) => RunNoAlloc(buf, p, Dec(n), Dec(i))
  }

  function SkipNoAllocAt(buf: bytes, pos: nat): Res<()> {
    RunNoAlloc(buf, pos, 1, 0)
  }

  /** The loop with a stack puts something on it. */
  predicate StackUsed(buf: bytes, pos: nat, s: State)
    decreases |buf| - pos
  {
    s.stack != []
    || (!s.Done() && EventAt(buf, pos).Ok?
      && StackUsed(buf, EventAt(buf, pos).pos, Advance(s, EventAt(buf, pos).value)))
  }

  predicate ReaderError(e: Error) {
    e.EndOfInput? || e.TypeMismatch? || e.InvalidUtf8?
  }

  lemma {:induction false} ChunksErrors(buf: bytes, pos: nat, text: bool)
    ensures ChunksAt(buf, pos, text).Err? ==> ReaderError(ChunksAt(buf, pos, text).error)
    decreases |buf| - pos
  {
    if pos < |buf| && buf[pos] != BREAK && DefiniteAt(buf, pos, text).Ok? {
      ChunksErrors(buf, DefiniteAt(buf, pos, text).pos, text);
    }
  }

  lemma {:induction false} StringsErrors(buf: bytes, pos: nat, text: bool)
    ensures StringsAt(buf, pos, text).Err? ==> ReaderError(StringsAt(buf, pos, text).error)
  {
    hide ChunksAt, FromBigEndian, Utf8;
    ChunksErrors(buf, pos + 1, text);
  }

  lemma {:induction false} EventErrors(buf: bytes, pos: nat)
    ensures EventAt(buf, pos).Err? ==> ReaderError(EventAt(buf, pos).error)
  {
    hide StringsAt, FromBigEndian;
    StringsErrors(buf, pos, false);
    StringsErrors(buf, pos, true);
  }

  /** Round by round the two loops agree until the stack is first used, which is when the second one gives up. */
  lemma {:induction false} LockStep(buf: bytes, pos: nat, n: nat, i: nat)
    requires n <= U64_MAX && i <= U64_MAX
    ensures var s := State(n, i, []);
            if StackUsed(buf, pos, s) then
              RunNoAlloc(buf, pos, n, i).Err? && RunNoAlloc(buf, pos, n, i).error == NeedsAlloc
            else
              RunNoAlloc(buf, pos, n, i) == Run(buf, pos, s)
              && (Run(buf, pos, s).Err? ==> ReaderError(Run(buf, pos, s).error))
    decreases |buf| - pos
  {
    hide EventAt, Nones, PopZeros;
    var s := State(n, i, []);
    if !s.Done() && EventAt(buf, pos).Ok? {
      var ev, p := EventAt(buf, pos).value, EventAt(buf, pos).pos;
      var s' := Advance(s, ev);
      if s'.stack == [] {
        SameCounters(s, ev);
        LockStep(buf, p, s'.n, s'.i);
      } else {
        StackMeansIndefinite(s, ev);
        assert StackUsed(buf, p, s');
      }
    } else if !s.Done() {
      EventErrors(buf, pos);
    }
  }

  lemma {:induction false} SameCounters(s: State, ev: Event)
    requires s.stack == [] && !s.Done() && Advance(s, ev).stack == [] && s.n <= U64_MAX
    ensures Advance(s, ev) == match ev {
      case TagHead => s
      case Leaf => State(Dec(s.n), s.i, [])
      case Open(Some(k)) => State(Dec(SatAdd(s.n, k)), s.i, [])
      case Open(None) => State(Dec(s.n), SatAdd(s.i, 1), [])
      case Close => State(Dec(s.n), Dec(s.i), [])
    }
    ensures ev == Open(None) ==> s.n < 2
  {
    if ev == Open(None) && s.n >= 2 {
      assert false;
    }
  }

  lemma {:induction false} StackMeansIndefinite(s: State, ev: Event)
    requires s.stack == [] && !s.Done() && Advance(s, ev).stack != []
    ensures ev == Open(None) && s.n >= 2
  {
  }

  /** On every input: the variant without a stack fails for lack of one, or the two agree on everything. */
  lemma {:induction false} NoAllocAgrees(buf: bytes, pos: nat)
    ensures var r := SkipNoAllocAt(buf, pos);
            (r.Err? && r.error == NeedsAlloc) || r == SkipAt(buf, pos)
    ensures var r := SkipNoAllocAt(buf, pos);
            (r.Err? && r.error == NeedsAlloc) <==> StackUsed(buf, pos, START)
  {
    LockStep(buf, pos, 1, 0);
  }

  /** No round of the full loop meets the head of an indefinite array or map. */
  predicate NoneIndefinite(buf: bytes, pos: nat, s: State)
    decreases |buf| - pos
  {
    s.Done() || EventAt(buf, pos).Err?
    || (EventAt(buf, pos).value != Open(None)
        && NoneIndefinite(buf, EventAt(buf, pos).pos, Advance(s, EventAt(buf, pos).value)))
  }

  lemma {:induction false} NoStackWithoutIndefinite(buf: bytes, pos: nat, s: State)
    requires s.stack == [] && NoneIndefinite(buf, pos, s)
    ensures !StackUsed(buf, pos, s)
    decreases |buf| - pos
  {
    hide EventAt, Advance;
    if !s.Done() && EventAt(buf, pos).Ok? {
      var ev, p := EventAt(buf, pos).value, EventAt(buf, pos).pos;
      if Advance(s, ev).stack != [] {
        StackMeansIndefinite(s, ev);
        assert false;
      }
      NoStackWithoutIndefinite(buf, p, Advance(s, ev));
    }
  }

  /** On every input where no indefinite array or map is met, the variant without a stack is the full one. */
  lemma {:induction false} NoAllocIsFullWithoutIndefinite(buf: bytes, pos: nat)
    requires NoneIndefinite(buf, pos, START)
    ensures SkipNoAllocAt(buf, pos) == SkipAt(buf, pos)
  {
    NoStackWithoutIndefinite(buf, pos, START);
    NoAllocAgrees(buf, pos);
  }

  // ----- which items can be skipped without a stack -----

  /**
    Whether an item can be skipped without a stack when `n` items are outstanding, itself included: an indefinite
    array or map must be the last of them, and inside it only the break is waited for.
   */
  predicate Stackless(x: Item, n: nat)
    decreases x
  {
    match x
    case Coll(_, _, xs) => StacklessAll(xs, Dec(n + |xs|))
    case CollIndef(_, xs) => n < 2 && StacklessAll(xs, 0)
    case Tagged(_, _, y) => Stackless(y, n)
    case _ => true
  }

  predicate StacklessAll(xs: seq<Item>, n: nat)
    decreases xs
  {
    xs == [] || (Stackless(xs[0], n) && StacklessAll(xs[1..], Dec(n)))
  }

  /** Without a stack the loop passes an item having counted it, or fails inside it for lack of one. */
  ghost predicate Passes(buf: bytes, pos: nat, n: nat, i: nat, len: nat, count: nat, stackless: bool) {
    var r := RunNoAlloc(buf, pos, n, i);
    if stackless then r == RunNoAlloc(buf, pos + len, if n < count then 0 else n - count, i)
    else r.Err? && r.error == NeedsAlloc
  }

  lemma {:induction false} PassesItem(buf: bytes, pos: nat, x: Item, n: nat, i: nat)
    requires Valid(x) && At(buf, pos, Encode(x)) && |buf| <= U64_MAX && (n > 0 || i > 0)
    requires n + |Encode(x)| <= U64_MAX + 1 && i + |Encode(x)| <= U64_MAX + 1
    ensures Passes(buf, pos, n, i, |Encode(x)|, 1, Stackless(x, n))
    decreases x, 1
  {
    hide EventAt, At, Encode, Valid;
    match x
    case Coll(_, _, _) => PassesColl(buf, pos, x, n, i);
    case CollIndef(_, _) => PassesCollIndef(buf, pos, x, n, i);
    case Tagged(w, _, y) =>
      TagEvent(buf, pos, x);
      PassesItem(buf, pos + 1 + w.Extra(), y, n, i);
    case _ => LeafEvent(buf, pos, x);
  }

  lemma {:induction false} PassesColl(buf: bytes, pos: nat, x: Item, n: nat, i: nat)
    requires x.Coll? && Valid(x) && At(buf, pos, Encode(x)) && |buf| <= U64_MAX && (n > 0 || i > 0)
    requires n + |Encode(x)| <= U64_MAX + 1 && i + |Encode(x)| <= U64_MAX + 1
    ensures Passes(buf, pos, n, i, |Encode(x)|, 1, Stackless(x, n))
    decreases x, 0
  {
    hide EventAt, At, StacklessAll, EncodeAll;
    var xs, p := x.items, pos + 1 + x.w.Extra();
    OpenEvent(buf, pos, x);
    EncodeAllLength(xs);
    assert RunNoAlloc(buf, pos, n, i) == RunNoAlloc(buf, p, Dec(n + |xs|), i);
    hide RunNoAlloc;
    PassesItems(buf, p, xs, Dec(n + |xs|), i);
  }

  lemma {:induction false} PassesCollIndef(buf: bytes, pos: nat, x: Item, n: nat, i: nat)
    requires x.CollIndef? && Valid(x) && At(buf, pos, Encode(x)) && |buf| <= U64_MAX && (n > 0 || i > 0)
    requires n + |Encode(x)| <= U64_MAX + 1 && i + |Encode(x)| <= U64_MAX + 1
    ensures Passes(buf, pos, n, i, |Encode(x)|, 1, Stackless(x, n))
    decreases x, 0
  {
    hide EventAt, At, StacklessAll, EncodeAll;
    OpenIndefEvent(buf, pos, x);
    if n < 2 {
      PassesItems(buf, pos + 1, x.items, 0, i + 1);
    }
  }

  lemma {:induction false} PassesItems(buf: bytes, pos: nat, xs: seq<Item>, n: nat, i: nat)
    requires ValidAll(xs) && At(buf, pos, EncodeAll(xs)) && |buf| <= U64_MAX && (n >= |xs| || i > 0)
    requires n + |EncodeAll(xs)| <= U64_MAX + |xs| && i + |EncodeAll(xs)| <= U64_MAX + 1
    ensures Passes(buf, pos, n, i, |EncodeAll(xs)|, |xs|, StacklessAll(xs, n))
    decreases xs, 0
  {
    hide RunNoAlloc, At, Encode, Valid, Stackless;
    if xs != [] {
      AtConcat(buf, pos, Encode(xs[0]), EncodeAll(xs[1..]));
      FirstByte(xs[0]);
      EncodeAllLength(xs[1..]);
      PassesItem(buf, pos, xs[0], n, i);
      PassesItems(buf, pos + |Encode(xs[0])|, xs[1..], Dec(n), i);
    }
  }

  /** Exactly the items whose indefinite arrays and maps are each the last one outstanding need no stack. */
  lemma {:induction false} NoAllocSkipsExactly(buf: bytes, pos: nat, x: Item)
    requires Valid(x) && At(buf, pos, Encode(x)) && |buf| <= U64_MAX
    ensures if Stackless(x, 1) then SkipNoAllocAt(buf, pos) == Ok((), pos + |Encode(x)|)
            else SkipNoAllocAt(buf, pos).Err? && SkipNoAllocAt(buf, pos).error == NeedsAlloc
  {
    hide Encode, Valid, EventAt, Stackless;
    PassesItem(buf, pos, x, 1, 0);
  }

  predicate Definite(x: Item)
    decreases x
  {
    match x
    case Coll(_, _, xs) => DefiniteAll(xs)
    case CollIndef(_, _) => false
    case Tagged(_, _, y) => Definite(y)
    case _ => true
  }

  predicate DefiniteAll(xs: seq<Item>)
    decreases xs
  {
    xs == [] || (Definite(xs[0]) && DefiniteAll(xs[1..]))
  }

  lemma {:induction false} DefiniteNeedsNoStack(x: Item, n: nat)
    requires Definite(x)
    ensures Stackless(x, n)
    decreases x, 1
  {
    match x
    case Coll(_, _, xs) => DefiniteNeedNoStack(xs, Dec(n + |xs|));
    case Tagged(_, _, y) => DefiniteNeedsNoStack(y, n);
    case _ =>
  }

  lemma {:induction false} DefiniteNeedNoStack(xs: seq<Item>, n: nat)
    requires DefiniteAll(xs)
    ensures StacklessAll(xs, n)
    decreases xs, 0
  {
    if xs != [] {
      DefiniteNeedsNoStack(xs[0], n);
      DefiniteNeedNoStack(xs[1..], Dec(n));
    }
  }

  /** Every well-formed item without indefinite arrays and maps is skipped to its end, whatever follows it. */
  lemma {:induction false} NoAllocSkipsDefinite(buf: bytes, pos: nat, x: Item)
    requires Valid(x) && Definite(x) && At(buf, pos, Encode(x)) && |buf| <= U64_MAX
    ensures SkipNoAllocAt(buf, pos) == Ok((), pos + |Encode(x)|)
  {
    DefiniteNeedsNoStack(x, 1);
    NoAllocSkipsExactly(buf, pos, x);
  }

  // ----- truncated inputs -----

  /** What is read from a cut input: the same as from the whole one, or the end of the input. */
  predicate Cut<T(==)>(short: Res<T>, full: Res<T>) {
    short == full || (short.Err? && short.error == EndOfInput)
  }

  lemma {:induction false} CutUnsigned(buf: bytes, k: nat, pos: nat, info: byte)
    requires pos <= k <= |buf| && info < 32
    ensures Cut(UnsignedAt(buf[..k], pos, info), UnsignedAt(buf, pos, info))
  {
    forall n: nat ensures Cut(SliceAt(buf[..k], pos, n), SliceAt(buf, pos, n)) {
      CutSlice(buf, k, pos, n);
    }
  }

  lemma {:induction false} CutSlice(buf: bytes, k: nat, pos: nat, n: nat)
    requires pos <= k <= |buf|
    ensures Cut(SliceAt(buf[..k], pos, n), SliceAt(buf, pos, n))
  {
    if pos + n <= k {
      assert buf[..k][pos..pos + n] == buf[pos..pos + n];
    }
  }

  lemma {:induction false} CutMismatch<T>(buf: bytes, k: nat, pos: nat, b: byte)
    requires k <= |buf|
    ensures var short: Res<T> := Mismatch(buf[..k], pos, b); short == Mismatch(buf, pos, b) || short.error == EndOfInput
  {
  }

  lemma {:induction false} CutDefinite(buf: bytes, k: nat, pos: nat, text: bool)
    requires k <= |buf|
    ensures Cut(DefiniteAt(buf[..k], pos, text), DefiniteAt(buf, pos, text))
  {
    if pos < k {
      var b := buf[pos];
      CutMismatch<bytes>(buf, k, pos + 1, b);
      CutUnsigned(buf, k, pos + 1, b % 32);
      var r := UnsignedAt(buf[..k], pos + 1, b % 32);
      if r.Ok? {
        CutSlice(buf, k, r.pos, r.value);
      }
    }
  }

  lemma {:induction false} CutChunks(buf: bytes, k: nat, pos: nat, text: bool)
    requires k <= |buf|
    ensures Cut(ChunksAt(buf[..k], pos, text), ChunksAt(buf, pos, text))
    decreases k - pos
  {
    hide DefiniteAt;
    if pos < k && buf[pos] != BREAK {
      CutDefinite(buf, k, pos, text);
      var r := DefiniteAt(buf[..k], pos, text);
      if r.Ok? {
        CutChunks(buf, k, r.pos, text);
      }
    }
  }

  lemma {:induction false} CutStrings(buf: bytes, k: nat, pos: nat, text: bool)
    requires k <= |buf|
    ensures Cut(StringsAt(buf[..k], pos, text), StringsAt(buf, pos, text))
  {
    hide ChunksAt, UnsignedAt, SliceAt, Mismatch, Utf8;
    if pos < k {
      var b := buf[pos];
      CutMismatch<seq<bytes>>(buf, k, pos + 1, b);
      CutUnsigned(buf, k, pos + 1, b % 32);
      CutChunks(buf, k, pos + 1, text);
      var r := UnsignedAt(buf[..k], pos + 1, b % 32);
      if r.Ok? {
        CutSlice(buf, k, r.pos, r.value);
      }
    }
  }

  lemma {:induction false} CutEvent(buf: bytes, k: nat, pos: nat)
    requires k <= |buf|
    ensures Cut(EventAt(buf[..k], pos), EventAt(buf, pos))
  {
    hide UnsignedAt, StringsAt, TypeOf;
    if pos < k {
      var b := buf[pos];
      CutMismatch<Event>(buf, k, pos, b);
      CutUnsigned(buf, k, pos + 1, b % 32);
      CutStrings(buf, k, pos, false);
      CutStrings(buf, k, pos, true);
    }
  }

  lemma {:induction false} CutRun(buf: bytes, k: nat, pos: nat, s: State)
    requires k <= |buf|
    ensures Cut(Run(buf[..k], pos, s), Run(buf, pos, s))
    decreases k - pos
  {
    hide EventAt, Advance;
    CutEvent(buf, k, pos);
    var r := EventAt(buf[..k], pos);
    if !s.Done() && r.Ok? {
      CutRun(buf, k, r.pos, Advance(s, r.value));
    }
  }

  /** A well-formed item cut anywhere short of its end is reported as the end of the input, never as skipped. */
  lemma {:induction false} TruncatedItem(buf: bytes, k: nat, pos: nat, x: Item)
    requires Valid(x) && At(buf, pos, Encode(x)) && |buf| <= U64_MAX
    requires pos <= k < pos + |Encode(x)|
    ensures SkipAt(buf[..k], pos).Err? && SkipAt(buf[..k], pos).error == EndOfInput
  {
    SkipsItem(buf, pos, x);
    CutRun(buf, k, pos, START);
  }

  // ----- what a successful skip says about the input -----

  /** No round of the loop meets an indefinite container or a stray break. */
  predicate DefiniteOnly(buf: bytes, pos: nat, s: State)
    decreases |buf| - pos
  {
    s.Done() || EventAt(buf, pos).Err?
    || (EventAt(buf, pos).value != Open(None) && EventAt(buf, pos).value != Close
        && DefiniteOnly(buf, EventAt(buf, pos).pos, Advance(s, EventAt(buf, pos).value)))
  }

  lemma {:induction false} ItemsSplit(buf: bytes, pos: nat, a: nat, b: nat)
    requires pos <= |buf| && ItemsAt(buf, pos, a + b).Parsed?
    ensures ItemsAt(buf, pos, a).Parsed?
    ensures ItemsAt(buf, ItemsAt(buf, pos, a).pos, b).Parsed?
    ensures ItemsAt(buf, ItemsAt(buf, pos, a).pos, b).pos == ItemsAt(buf, pos, a + b).pos
    decreases a
  {
    if a > 0 {
      ItemsSplit(buf, ItemAt(buf, pos).pos, a - 1, b);
    }
  }

  lemma {:induction false} ItemsTakeSpace(buf: bytes, pos: nat, k: nat)
    requires pos <= |buf| && ItemsAt(buf, pos, k).Parsed?
    ensures ItemsAt(buf, pos, k).pos >= pos + k
    decreases k
  {
    if k > 0 {
      ItemsTakeSpace(buf, ItemAt(buf, pos).pos, k - 1);
    }
  }

  lemma {:induction false} LeafIsItem(buf: bytes, pos: nat)
    requires EventAt(buf, pos).Ok? && EventAt(buf, pos).value == Leaf
    ensures ItemAt(buf, pos).Parsed? && ItemAt(buf, pos).pos == EventAt(buf, pos).pos
  {
    hide ItemsAt, ItemsToBreakAt, PrimAt;
    if buf[pos] % 32 == 31 {
      ChunkTreesFollow(buf, pos + 1, buf[pos] / 32 == 3);
    } else if buf[pos] / 32 == 7 {
      PrimIsArgument(buf, pos);
    }
  }

  lemma {:induction false} ChunkTreesFollow(buf: bytes, pos: nat, text: bool)
    requires ChunksAt(buf, pos, text).Ok?
    ensures ChunkTreesAt(buf, pos, text).Parsed? && ChunkTreesAt(buf, pos, text).pos == ChunksAt(buf, pos, text).pos
    decreases |buf| - pos
  {
    if buf[pos] != BREAK {
      ChunkTreesFollow(buf, DefiniteAt(buf, pos, text).pos, text);
    }
  }

  /** A definite run that ends well has passed over exactly as many items as were outstanding. */
  lemma {:induction false} RunPassesItems(buf: bytes, pos: nat, n: nat)
    requires pos <= |buf| < U64_MAX && n <= U64_MAX
    requires Run(buf, pos, State(n, 0, [])).Ok? && DefiniteOnly(buf, pos, State(n, 0, []))
    ensures ItemsAt(buf, pos, n).Parsed? && ItemsAt(buf, pos, n).pos == Run(buf, pos, State(n, 0, [])).pos
    decreases |buf| - pos
  {
    hide EventAt, ItemAt;
    if n > 0 {
      var s, ev, p := State(n, 0, []), EventAt(buf, pos).value, EventAt(buf, pos).pos;
      match ev
      case Leaf =>
        LeafIsItem(buf, pos);
        RunPassesItems(buf, p, n - 1);
      case TagHead =>
        RunPassesItems(buf, p, n);
        TagIsItem(buf, pos);
      case Open(Some(k)) =>
        RunPassesItems(buf, p, Dec(SatAdd(n, k)));
        ItemsTakeSpace(buf, p, Dec(SatAdd(n, k)));
        assert SatAdd(n, k) == n + k;
        ItemsSplit(buf, p, k, n - 1);
        CollIsItem(buf, pos);
    }
  }

  lemma {:induction false} TagIsItem(buf: bytes, pos: nat)
    requires EventAt(buf, pos).Ok? && EventAt(buf, pos).value == TagHead && ItemAt(buf, EventAt(buf, pos).pos).Parsed?
    ensures ItemAt(buf, pos).Parsed? && ItemAt(buf, pos).pos == ItemAt(buf, EventAt(buf, pos).pos).pos
  {
  }

  lemma {:induction false} CollIsItem(buf: bytes, pos: nat)
    requires EventAt(buf, pos).Ok? && EventAt(buf, pos).value.Open? && EventAt(buf, pos).value.count.Some?
    requires var k := EventAt(buf, pos).value.count.value;
             k < U64_MAX && EventAt(buf, pos).pos <= |buf| && ItemsAt(buf, EventAt(buf, pos).pos, k).Parsed?
    ensures ItemAt(buf, pos).Parsed?
    ensures ItemAt(buf, pos).pos == ItemsAt(buf, EventAt(buf, pos).pos, EventAt(buf, pos).value.count.value).pos
  {
    hide ItemsAt, ItemsToBreakAt;
  }

  /** Where no indefinite container is met, skipping succeeds exactly on the items this decoder reads. */
  lemma {:induction false} DefiniteSkipIsExact(buf: bytes, pos: nat, p: nat)
    requires pos <= |buf| < U64_MAX && DefiniteOnly(buf, pos, START)
    ensures SkipAt(buf, pos) == Ok((), p)
       <==> exists x :: Valid(x) && At(buf, pos, Encode(x)) && p == pos + |Encode(x)|
  {
    if SkipAt(buf, pos) == Ok((), p) {
      RunPassesItems(buf, pos, 1);
      ItemFromReads(buf, pos);
    }
    if x :| Valid(x) && At(buf, pos, Encode(x)) && p == pos + |Encode(x)| {
      SkipsItem(buf, pos, x);
    }
  }

  /** A break inside a definite array is not well-formed, and is skipped all the same. */
  lemma {:induction false} SkipAcceptsStrayBreak()
    ensures SkipAt([0x81, 0xff], 0) == Ok((), 2) && ItemAt([0x81, 0xff], 0) == Failed
  {
    var buf: bytes := [0x81, 0xff];
    assert buf[0] / 32 == 4 && buf[0] % 32 == 1;
    assert EventAt(buf, 0) == Ok(Open(Some(1)), 1);
    assert EventAt(buf, 1) == Ok(Close, 2);
    assert Advance(START, Open(Some(1))) == State(1, 0, []);
    assert Advance(State(1, 0, []), Close) == State(0, 0, []);
    assert Run(buf, 1, State(1, 0, [])) == Ok((), 2);
    assert ItemAt(buf, 1) == Failed;
    assert ItemsAt(buf, 1, 1) == Failed;
  }

  /** Inside an indefinite array a definite head needs none of its elements: the break ends both. */
  lemma {:induction false} SkipAcceptsMissingElements()
    ensures SkipAt([0x9f, 0x81, 0xff], 0) == Ok((), 3) && ItemAt([0x9f, 0x81, 0xff], 0) == Failed
  {
    var buf: bytes := [0x9f, 0x81, 0xff];
    assert EventAt(buf, 0) == Ok(Open(None), 1);
    assert buf[1] / 32 == 4 && buf[1] % 32 == 1;
    assert EventAt(buf, 1) == Ok(Open(Some(1)), 2) && EventAt(buf, 2) == Ok(Close, 3);
    assert Advance(START, Open(None)) == State(0, 1, []);
    assert Advance(State(0, 1, []), Open(Some(1))) == State(0, 1, []);
    assert Advance(State(0, 1, []), Close) == State(0, 0, []);
    assert Run(buf, 2, State(0, 1, [])) == Ok((), 3);
    assert Run(buf, 1, State(0, 1, [])) == Ok((), 3);
    assert ItemAt(buf, 2) == Failed;
    assert ItemsAt(buf, 2, 1) == Failed;
    assert ItemAt(buf, 1) == Failed;
  }

  /** Where this decoder and Appendix C of RFC 8949 part: a simple value of two bytes, and text that is not UTF-8. */
  lemma {:induction false} SkipAgainstAppendixC()
    ensures SkipAt([0xf8, 0x00], 0) == Ok((), 2) && !WellFormed(Prim(W1, 0))
    ensures SkipAt([0x61, 0xff], 0) == Err(InvalidUtf8, 2) && WellFormed(Str(true, Chunk(Imm, [0xff])))
  {
    var buf: bytes := [0xf8, 0x00];
    assert buf[0] / 32 == 7 && buf[0] % 32 == 24 && buf[1..2] == [0x00];
    assert EventAt(buf, 0) == Ok(Leaf, 2);
    assert Advance(START, Leaf) == State(0, 0, []);
    var text: bytes := [0x61, 0xff];
    assert text[0] / 32 == 3 && text[0] % 32 == 1 && text[1..2] == [0xff];
    assert !Utf8([0xff]);
    assert EventAt(text, 0) == Err(InvalidUtf8, 2);
  }

  /** An indefinite array in the last place of a definite one needs no stack, although the documentation says so. */
  lemma {:induction false} NoAllocSkipsTrailingIndefinite()
    ensures SkipNoAllocAt([0x81, 0x9f, 0xff], 0) == Ok((), 3)
  {
    var buf: bytes := [0x81, 0x9f, 0xff];
    assert buf[0] / 32 == 4 && buf[0] % 32 == 1;
    assert EventAt(buf, 0) == Ok(Open(Some(1)), 1);
    assert buf[1] / 32 == 4 && buf[1] % 32 == 31;
    assert EventAt(buf, 1) == Ok(Open(None), 2);
    assert EventAt(buf, 2) == Ok(Close, 3);
    assert RunNoAlloc(buf, 2, 0, 1) == Ok((), 3);
    assert RunNoAlloc(buf, 1, 1, 0) == Ok((), 3);
  }
}
