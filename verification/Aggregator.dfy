/**
  Exit probes running on several CPUs at once, as a state machine whose steps are the pieces between which
  another CPU can get in: reading the publish time, the locked section, and handing the snapshot over.
 */
module Aggregator {
  import opened Wire
  import opened Stats

  const NUM_PATH_PREFIX: nat := 8

  /** A finished system call: its sample, the time it ended, and what `PathWalk.MatchingPrefixes` gave for its path. */
  datatype Probe = Probe(sample: Sample, now: u64, matches: set<nat>)

  /** A snapshot taken under the lock, with the window it was taken from. */
  datatype Taken = Taken(start: Stats, window: seq<Sample>, snapshot: Stats)

  /** One table entry, with the history of what was folded into it. */
  datatype Prefix = Prefix(stats: Stats, start: Stats, live: seq<Sample>, folded: seq<Sample>, taken: seq<Taken>)

  /** Where a CPU stands in its probe. */
  datatype Cpu =
    | Idle
    | At(probe: Probe, idx: nat)                     // about to look at prefix `idx`
    | Decided(probe: Probe, idx: nat, publish: bool) // has compared the publish time, does not hold the lock
    | Putting(probe: Probe, idx: nat, out: Taken)    // has released the lock, snapshot in hand

  datatype State = State(
    prefixes: seq<Prefix>,
    cpus: seq<Cpu>,
    submitted: multiset<(nat, Taken)>,
    dropped: multiset<(nat, Taken)>)

  datatype Action = Begin(probe: Probe) | Look | Lock | Put(ok: bool)

  /** The publish test, on unsigned 64-bit time. */
  predicate Due(now: u64, lastPublish: u64) {
    (now - lastPublish) % TWO64 > AGG_INTERVAL
  }

  predicate Enabled(s: State, c: nat, a: Action) {
    c < |s.cpus| && |s.prefixes| == NUM_PATH_PREFIX
    && match a
       case Begin(_) => s.cpus[c].Idle?
       case Look => s.cpus[c].At?
       case Lock => s.cpus[c].Decided? && s.cpus[c].idx < NUM_PATH_PREFIX
       case Put(_) => s.cpus[c].Putting?
  }

  function Step(s: State, c: nat, a: Action): State
    requires Enabled(s, c, a)
  {
    var cpu := s.cpus[c];
    match a
    case Begin(probe) => s.(cpus := s.cpus[c := At(probe, 0)])
    case Look =>
      if cpu.idx >= NUM_PATH_PREFIX then s.(cpus := s.cpus[c := Idle])
      else if cpu.idx !in cpu.probe.matches then s.(cpus := s.cpus[c := At(cpu.probe, cpu.idx + 1)])
      else
        var due := Due(cpu.probe.now, s.prefixes[cpu.idx].stats.lastPublish);
        s.(cpus := s.cpus[c := Decided(cpu.probe, cpu.idx, due)])
    case Lock =>
      var p := Folded(s.prefixes[cpu.idx], cpu.probe.sample);
      if !cpu.publish then
        s.(prefixes := s.prefixes[cpu.idx := p], cpus := s.cpus[c := At(cpu.probe, cpu.idx + 1)])
      else
        var out := Taken(p.start, p.live, p.stats);
        s.(prefixes := s.prefixes[cpu.idx := Emptied(p, out, cpu.probe.now)],
           cpus := s.cpus[c := Putting(cpu.probe, cpu.idx, out)])
    case Put(ok) =>
      if ok then
        s.(submitted := s.submitted + multiset{(cpu.idx, cpu.out)}, cpus := s.cpus[c := At(cpu.probe, cpu.idx + 1)])
      else // the probe gives up on the remaining prefixes
        s.(dropped := s.dropped + multiset{(cpu.idx, cpu.out)}, cpus := s.cpus[c := Idle])
  }

  function Folded(p: Prefix, x: Sample): Prefix {
    p.(stats := Updated(p.stats, x), live := p.live + [x], folded := p.folded + [x])
  }

  function Emptied(p: Prefix, out: Taken, now: u64): Prefix {
    p.(stats := Cleared(now), start := Cleared(now), live := [], taken := p.taken + [out])
  }

  // ----- the invariant -----

  function Windows(ts: seq<Taken>): seq<Sample> {
    if ts == [] then [] else Windows(ts[..|ts| - 1]) + ts[|ts| - 1].window
  }

  /** The snapshot is exactly what its window, and nothing else, adds up to. */
  predicate Sound(t: Taken) {
    Fresh(t.start) && t.window != [] && t.snapshot == Fold(t.start, t.window)
  }

  /** Nothing folded is lost or counted twice, and the counters are those of the live window. */
  predicate PrefixInv(p: Prefix) {
    && Windows(p.taken) + p.live == p.folded
    && Fresh(p.start) && p.stats == Fold(p.start, p.live)
    && forall k :: 0 <= k < |p.taken| ==> Sound(p.taken[k])
  }

  /** Snapshots in the hands of a CPU. */
  function Pending(cpus: seq<Cpu>): multiset<(nat, Taken)> {
    if cpus == [] then multiset{}
    else Pending(cpus[..|cpus| - 1]) + InHand(cpus[|cpus| - 1])
  }

  function InHand(c: Cpu): multiset<(nat, Taken)> {
    if c.Putting? then multiset{(c.idx, c.out)} else multiset{}
  }

  /** All snapshots ever taken, each with its prefix. */
  function AllTaken(ps: seq<Prefix>): multiset<(nat, Taken)> {
    if ps == [] then multiset{}
    else AllTaken(ps[..|ps| - 1]) + Tagged(|ps| - 1, ps[|ps| - 1].taken)
  }

  function Tagged(i: nat, ts: seq<Taken>): multiset<(nat, Taken)> {
    if ts == [] then multiset{} else Tagged(i, ts[..|ts| - 1]) + multiset{(i, ts[|ts| - 1])}
  }

  /** Every snapshot taken is submitted, dropped or still in hand, exactly once. */
  ghost predicate Inv(s: State) {
    && |s.prefixes| == NUM_PATH_PREFIX
    && (forall i :: 0 <= i < NUM_PATH_PREFIX ==> PrefixInv(s.prefixes[i]))
    && (forall c :: 0 <= c < |s.cpus| ==> !s.cpus[c].Idle? && !s.cpus[c].At? ==> s.cpus[c].idx < NUM_PATH_PREFIX)
    && AllTaken(s.prefixes) == s.submitted + s.dropped + Pending(s.cpus)
  }

  ghost predicate Init(s: State) {
    && |s.prefixes| == NUM_PATH_PREFIX
    && (forall i :: 0 <= i < NUM_PATH_PREFIX ==>
          var p := s.prefixes[i]; Fresh(p.stats) && p.start == p.stats && p.live == p.folded == [] && p.taken == [])
    && (forall c :: 0 <= c < |s.cpus| ==> s.cpus[c].Idle?)
    && s.submitted == s.dropped == multiset{}
  }

  lemma {:induction false} NothingPending(cpus: seq<Cpu>)
    requires forall c :: 0 <= c < |cpus| ==> !cpus[c].Putting?
    ensures Pending(cpus) == multiset{}
  {
    if cpus != [] {
      NothingPending(cpus[..|cpus| - 1]);
    }
  }

  lemma {:induction false} NothingTaken(ps: seq<Prefix>)
    requires forall i :: 0 <= i < |ps| ==> ps[i].taken == []
    ensures AllTaken(ps) == multiset{}
  {
    if ps != [] {
      NothingTaken(ps[..|ps| - 1]);
    }
  }

  /** Replacing one summand: (a + x) + o == (b + y) + o follows from a + x == b + y. */
  lemma {:induction false} AddBoth<T>(a: multiset<T>, b: multiset<T>, x: multiset<T>, y: multiset<T>, o: multiset<T>)
    requires a + x == b + y
    ensures (a + o) + x == (b + o) + y
  {
    assert (a + o) + x == (a + x) + o;
    assert (b + o) + y == (b + y) + o;
  }

  lemma {:induction false} Cancel<T>(a: multiset<T>, b: multiset<T>, x: multiset<T>, y: multiset<T>)
    requires a + x == b + (x + y)
    ensures a == b + y
  {
    forall e | e in a || e in b || e in y ensures a[e] == (b + y)[e] {
      assert (a + x)[e] == (b + (x + y))[e];
    }
  }

  lemma {:induction false} PendingUpdate(cpus: seq<Cpu>, c: nat, now: Cpu)
    requires c < |cpus|
    ensures Pending(cpus[c := now]) + InHand(cpus[c]) == Pending(cpus) + InHand(now)
  {
    hide InHand;
    var k, next := |cpus| - 1, cpus[c := now];
    if c < k {
      PendingUpdate(cpus[..k], c, now);
      assert next[..k] == cpus[..k][c := now] && next[k] == cpus[k];
      AddBoth(Pending(next[..k]), Pending(cpus[..k]), InHand(cpus[c]), InHand(now), InHand(cpus[k]));
    } else {
      assert next[..k] == cpus[..k] && next[k] == now;
      assert Pending(next) == Pending(cpus[..k]) + InHand(now);
    }
  }

  lemma {:induction false} TakenUpdate(ps: seq<Prefix>, i: nat, p: Prefix)
    requires i < |ps|
    ensures AllTaken(ps[i := p]) + Tagged(i, ps[i].taken) == AllTaken(ps) + Tagged(i, p.taken)
  {
    hide Tagged;
    var k, next := |ps| - 1, ps[i := p];
    if i < k {
      TakenUpdate(ps[..k], i, p);
      assert next[..k] == ps[..k][i := p] && next[k] == ps[k];
      AddBoth(AllTaken(next[..k]), AllTaken(ps[..k]), Tagged(i, ps[i].taken), Tagged(i, p.taken),
        Tagged(k, ps[k].taken));
    } else {
      assert next[..k] == ps[..k] && next[k] == p;
      assert AllTaken(next) == AllTaken(ps[..k]) + Tagged(i, p.taken);
    }
  }

  lemma {:induction false} FoldedInv(p: Prefix, x: Sample)
    requires PrefixInv(p)
    ensures PrefixInv(Folded(p, x))
  {
    assert (p.live + [x])[..|p.live|] == p.live;
    assert Windows(p.taken) + (p.live + [x]) == (Windows(p.taken) + p.live) + [x];
  }

  lemma {:induction false} EmptiedInv(p: Prefix, now: u64)
    requires PrefixInv(p) && p.live != []
    ensures PrefixInv(Emptied(p, Taken(p.start, p.live, p.stats), now))
  {
    var out := Taken(p.start, p.live, p.stats);
    assert (p.taken + [out])[..|p.taken|] == p.taken;
    assert Windows(p.taken + [out]) + [] == Windows(p.taken) + p.live;
  }

  /** The locked section keeps the entry's invariant and adds the snapshot, if any, to those taken. */
  lemma {:induction false} LockKeeps(p: Prefix, i: nat, x: Sample, publish: bool, now: u64)
    requires PrefixInv(p)
    ensures var q := Folded(p, x);
            var out := Taken(q.start, q.live, q.stats);
            if publish then PrefixInv(Emptied(q, out, now))
              && Tagged(i, Emptied(q, out, now).taken) == Tagged(i, p.taken) + multiset{(i, out)}
            else PrefixInv(q) && q.taken == p.taken
  {
    var q := Folded(p, x);
    FoldedInv(p, x);
    if publish {
      EmptiedInv(q, now);
      var out := Taken(q.start, q.live, q.stats);
      assert (p.taken + [out])[..|p.taken|] == p.taken;
    }
  }

  lemma {:induction false} LockKeepsInv(s: State, c: nat)
    requires Inv(s) && Enabled(s, c, Lock)
    ensures Inv(Step(s, c, Lock))
  {
    hide PrefixInv, Tagged, Pending, AllTaken;
    var cpu, s' := s.cpus[c], Step(s, c, Lock);
    var i := cpu.idx;
    LockKeeps(s.prefixes[i], i, cpu.probe.sample, cpu.publish, cpu.probe.now);
    TakenUpdate(s.prefixes, i, s'.prefixes[i]);
    PendingUpdate(s.cpus, c, s'.cpus[c]);
    var added := InHand(s'.cpus[c]);
    Cancel(AllTaken(s'.prefixes), AllTaken(s.prefixes), Tagged(i, s.prefixes[i].taken), added);
    assert Pending(s'.cpus) == Pending(s.cpus) + added;
    assert s.submitted + s.dropped + Pending(s.cpus) + added == s.submitted + s.dropped + (Pending(s.cpus) + added);
  }

  lemma {:induction false} PutKeepsInv(s: State, c: nat, ok: bool)
    requires Inv(s) && Enabled(s, c, Put(ok))
    ensures Inv(Step(s, c, Put(ok)))
  {
    hide PrefixInv, Tagged, Pending, AllTaken;
    var s' := Step(s, c, Put(ok));
    PendingUpdate(s.cpus, c, s'.cpus[c]);
    var x, pending := InHand(s.cpus[c]), Pending(s'.cpus);
    assert Pending(s.cpus) == pending + x;
    if ok {
      assert (s.submitted + x) + s.dropped + pending == s.submitted + s.dropped + (pending + x);
    } else {
      assert s.submitted + (s.dropped + x) + pending == s.submitted + s.dropped + (pending + x);
    }
  }

  /** Every step of every CPU keeps the invariant. */
  lemma {:induction false} StepKeepsInv(s: State, c: nat, a: Action)
    requires Inv(s) && Enabled(s, c, a)
    ensures Inv(Step(s, c, a))
  {
    hide PrefixInv, Tagged, Pending, AllTaken;
    match a
    case Lock => LockKeepsInv(s, c);
    case Put(ok) => PutKeepsInv(s, c, ok);
    case _ =>
      var s' := Step(s, c, a);
      PendingUpdate(s.cpus, c, s'.cpus[c]);
      var none := InHand(s.cpus[c]);
      assert none == multiset{} == InHand(s'.cpus[c]);
      assert Pending(s'.cpus) + none == Pending(s'.cpus) && Pending(s.cpus) + none == Pending(s.cpus);
  }

  /** What the CPUs do in some order: each move is a CPU and its next action. */
  function After(s: State, moves: seq<(nat, Action)>): Option<State> {
    if moves == [] then Some(s)
    else
      var k := |moves| - 1;
      match After(s, moves[..k])
      case None => None
      case Some(t) => if Enabled(t, moves[k].0, moves[k].1) then Some(Step(t, moves[k].0, moves[k].1)) else None
  }

  lemma {:induction false} InitInv(s: State)
    requires Init(s)
    ensures Inv(s)
  {
    NothingPending(s.cpus);
    NothingTaken(s.prefixes);
    forall i | 0 <= i < NUM_PATH_PREFIX ensures PrefixInv(s.prefixes[i]) {
    }
  }

  /** The invariant holds after every interleaving. */
  lemma {:induction false} EveryRunKeepsInv(s: State, moves: seq<(nat, Action)>)
    requires Init(s) && After(s, moves).Some?
    ensures Inv(After(s, moves).value)
  {
    hide Inv, Step, Enabled, Init;
    if moves == [] {
      InitInv(s);
    } else {
      var k := |moves| - 1;
      EveryRunKeepsInv(s, moves[..k]);
      StepKeepsInv(After(s, moves[..k]).value, moves[k].0, moves[k].1);
    }
  }

  // ----- what a run folds -----

  /** The probe a CPU began last. */
  function Current(moves: seq<(nat, Action)>, c: nat): Option<Probe> {
    if moves == [] then None
    else
      var k := |moves| - 1;
      if moves[k].0 == c && moves[k].1.Begin? then Some(moves[k].1.probe) else Current(moves[..k], c)
  }

  /** The prefixes a CPU has locked for that probe, in order. */
  function Locked(s: State, moves: seq<(nat, Action)>, c: nat): seq<nat>
    requires After(s, moves).Some?
  {
    if moves == [] then []
    else
      var k := |moves| - 1;
      if moves[k].0 != c then Locked(s, moves[..k], c)
      else match moves[k].1
        case Begin(_) => []
        case Lock => Locked(s, moves[..k], c) + [After(s, moves[..k]).value.cpus[c].idx]
        case _ => Locked(s, moves[..k], c)
  }

  /** The prefix whose snapshot could not be handed over, which made that probe give up. */
  function GaveUpAt(s: State, moves: seq<(nat, Action)>, c: nat): Option<nat>
    requires After(s, moves).Some?
  {
    if moves == [] then None
    else
      var k := |moves| - 1;
      if moves[k].0 != c then GaveUpAt(s, moves[..k], c)
      else match moves[k].1
        case Begin(_) => None
        case Put(false) => Some(After(s, moves[..k]).value.cpus[c].idx)
        case _ => GaveUpAt(s, moves[..k], c)
  }

  /** The samples of the probes that locked prefix `i`, in the order in which they did. */
  function Folds(s: State, moves: seq<(nat, Action)>, i: nat): seq<Sample>
    requires After(s, moves).Some?
  {
    if moves == [] then []
    else
      var k := |moves| - 1;
      var c, probe := moves[k].0, Current(moves[..k], moves[k].0);
      if moves[k].1.Lock? && After(s, moves[..k]).value.cpus[c].idx == i && probe.Some?
      then Folds(s, moves[..k], i) + [probe.value.sample]
      else Folds(s, moves[..k], i)
  }

  /** The prefixes below `n` that a probe matches, in order. */
  function Matching(probe: Probe, n: nat): seq<nat> {
    if n == 0 then [] else Matching(probe, n - 1) + if n - 1 in probe.matches then [n - 1] else []
  }

  lemma {:induction false} MatchingIsExact(probe: Probe, n: nat)
    ensures forall j :: j in Matching(probe, n) <==> j < n && j in probe.matches
    ensures forall a, b :: 0 <= a < b < |Matching(probe, n)| ==> Matching(probe, n)[a] < Matching(probe, n)[b]
  {
    if n > 0 {
      MatchingIsExact(probe, n - 1);
      var before, now := Matching(probe, n - 1), Matching(probe, n);
      forall a, b | 0 <= a < b < |now| ensures now[a] < now[b] {
        assert now[a] == before[a];
        assert now[a] in before;
      }
    }
  }

  /** A CPU has locked exactly the matching prefixes up to where it stands, or stood when it finished. */
  predicate Accounts(cpu: Cpu, current: Option<Probe>, locked: seq<nat>, gaveUp: Option<nat>) {
    match cpu
    case Idle =>
      (current == None ==> locked == [])
      && (current.Some? ==>
            locked == Matching(current.value, if gaveUp.Some? then gaveUp.value + 1 else NUM_PATH_PREFIX)
            && (gaveUp.Some? ==> gaveUp.value < NUM_PATH_PREFIX && gaveUp.value in current.value.matches))
    case At(p, idx) =>
      current == Some(p) && gaveUp == None && idx <= NUM_PATH_PREFIX && locked == Matching(p, idx)
    case Decided(p, idx, _) =>
      current == Some(p) && gaveUp == None && idx < NUM_PATH_PREFIX && idx in p.matches && locked == Matching(p, idx)
    case Putting(p, idx, _) =>
      current == Some(p) && gaveUp == None && idx < NUM_PATH_PREFIX && idx in p.matches
      && locked == Matching(p, idx + 1)
  }

  ghost predicate Tracks(s: State, moves: seq<(nat, Action)>, c: nat)
    requires After(s, moves).Some? && c < |After(s, moves).value.cpus|
  {
    Accounts(After(s, moves).value.cpus[c], Current(moves, c), Locked(s, moves, c), GaveUpAt(s, moves, c))
  }

  /** A CPU's own step keeps its account. */
  lemma {:induction false} AccountStep(
    s: State, c: nat, a: Action, current: Option<Probe>, locked: seq<nat>, gaveUp: Option<nat>)
    requires Enabled(s, c, a) && Accounts(s.cpus[c], current, locked, gaveUp)
    ensures c < |Step(s, c, a).cpus|
    ensures Accounts(Step(s, c, a).cpus[c],
      if a.Begin? then Some(a.probe) else current,
      if a.Begin? then [] else if a.Lock? then locked + [s.cpus[c].idx] else locked,
      if a.Begin? then None else if a == Put(false) then Some(s.cpus[c].idx) else gaveUp)
  {
    hide Due, Folded, Emptied;
    var cpu := s.cpus[c];
    if a.Look? && cpu.idx < NUM_PATH_PREFIX {
      assert Matching(cpu.probe, cpu.idx + 1) == locked + if cpu.idx in cpu.probe.matches then [cpu.idx] else [];
    }
  }

  lemma {:induction false} SameCpus(s: State, moves: seq<(nat, Action)>)
    requires After(s, moves).Some?
    ensures |After(s, moves).value.cpus| == |s.cpus|
  {
    if moves != [] {
      SameCpus(s, moves[..|moves| - 1]);
    }
  }

  lemma {:induction false} EveryRunTracks(s: State, moves: seq<(nat, Action)>, c: nat)
    requires Init(s) && After(s, moves).Some? && c < |s.cpus|
    ensures c < |After(s, moves).value.cpus| && Tracks(s, moves, c)
  {
    hide Init;
    SameCpus(s, moves);
    if moves == [] {
      NobodyBegan(s, c);
    } else {
      var k := |moves| - 1;
      EveryRunTracks(s, moves[..k], c);
      TracksStep(s, moves, c);
    }
  }

  lemma {:induction false} NobodyBegan(s: State, c: nat)
    requires Init(s) && c < |s.cpus|
    ensures Tracks(s, [], c)
  {
  }

  lemma {:induction false} TracksStep(s: State, moves: seq<(nat, Action)>, c: nat)
    requires moves != [] && After(s, moves).Some? && c < |After(s, moves).value.cpus|
    requires c < |After(s, moves[..|moves| - 1]).value.cpus| && Tracks(s, moves[..|moves| - 1], c)
    ensures Tracks(s, moves, c)
  {
    hide Step, Accounts;
    var k := |moves| - 1;
    var t, d, a := After(s, moves[..k]).value, moves[k].0, moves[k].1;
    if d == c {
      AccountStep(t, c, a, Current(moves[..k], c), Locked(s, moves[..k], c), GaveUpAt(s, moves[..k], c));
    } else {
      OtherCpu(t, d, a, c);
    }
  }

  lemma {:induction false} OtherCpu(s: State, d: nat, a: Action, c: nat)
    requires Enabled(s, d, a) && d != c && c < |s.cpus|
    ensures c < |Step(s, d, a).cpus| && Step(s, d, a).cpus[c] == s.cpus[c]
  {
    hide Due, Folded, Emptied;
  }

  /**
    A finished probe has been folded exactly once into each prefix it matches, in order. It missed some only if the
    snapshot of one of them could not be handed over: then it was folded into those up to and including that one.
   */
  lemma {:induction false} FinishedProbeIsFolded(s: State, moves: seq<(nat, Action)>, c: nat)
    requires Init(s) && After(s, moves).Some? && c < |s.cpus| && Current(moves, c).Some?
    ensures c < |After(s, moves).value.cpus|
    ensures After(s, moves).value.cpus[c].Idle? ==>
      var p, locked, gaveUp := Current(moves, c).value, Locked(s, moves, c), GaveUpAt(s, moves, c);
      (forall a, b :: 0 <= a < b < |locked| ==> locked[a] < locked[b])
      && (forall j :: j in locked <==> j in p.matches && j < NUM_PATH_PREFIX && (gaveUp.Some? ==> j <= gaveUp.value))
  {
    EveryRunTracks(s, moves, c);
    MatchingIsExact(Current(moves, c).value, NUM_PATH_PREFIX);
    if GaveUpAt(s, moves, c).Some? {
      MatchingIsExact(Current(moves, c).value, GaveUpAt(s, moves, c).value + 1);
    }
  }

  /** A probe that matches prefixes 0 and 1: its snapshot of 0 is refused, so it is never folded into 1. */
  lemma {:induction false} RefusedSnapshotSkipsPrefix(s: State, probe: Probe)
    requires Init(s) && |s.cpus| == 1 && probe.matches == {0, 1} && Due(probe.now, s.prefixes[0].stats.lastPublish)
    ensures var moves := [(0, Begin(probe)), (0, Look), (0, Lock), (0, Put(false))];
            After(s, moves).Some? && After(s, moves).value.cpus == [Idle] && Locked(s, moves, 0) == [0]
  {
    hide Due, Folded, Emptied;
    var m1, m2, m3 := [(0, Begin(probe))], [(0, Begin(probe)), (0, Look)], [(0, Begin(probe)), (0, Look), (0, Lock)];
    NextMove(s, [], 0, Begin(probe));
    var s1 := Step(s, 0, Begin(probe));
    assert [] + m1 == m1 && s1.cpus == [At(probe, 0)];
    NextMove(s, m1, 0, Look);
    var s2 := Step(s1, 0, Look);
    assert m1 + [(0, Look)] == m2 && s2.cpus == [Decided(probe, 0, true)];
    NextMove(s, m2, 0, Lock);
    var s3 := Step(s2, 0, Lock);
    assert m2 + [(0, Lock)] == m3 && s3.cpus[0].Putting?;
    NextMove(s, m3, 0, Put(false));
    assert m3 + [(0, Put(false))] == [(0, Begin(probe)), (0, Look), (0, Lock), (0, Put(false))];
  }

  lemma {:induction false} NextMove(s: State, moves: seq<(nat, Action)>, c: nat, a: Action)
    requires After(s, moves).Some? && Enabled(After(s, moves).value, c, a)
    ensures After(s, moves + [(c, a)]) == Some(Step(After(s, moves).value, c, a))
    ensures Locked(s, moves + [(c, a)], c) ==
            if a.Begin? then [] else Locked(s, moves, c) + if a.Lock? then [After(s, moves).value.cpus[c].idx] else []
  {
    hide Step;
    assert (moves + [(c, a)])[..|moves|] == moves;
  }

  /** What was folded into a prefix is what the probes that locked it brought. */
  lemma {:induction false} FoldedIsFolds(s: State, moves: seq<(nat, Action)>, i: nat)
    requires Init(s) && After(s, moves).Some? && i < NUM_PATH_PREFIX
    ensures var t := After(s, moves).value;
            |t.prefixes| == NUM_PATH_PREFIX && t.prefixes[i].folded == Folds(s, moves, i)
  {
    if moves != [] {
      hide Init;
      var k := |moves| - 1;
      FoldedIsFolds(s, moves[..k], i);
      SameCpus(s, moves[..k]);
      EveryRunTracks(s, moves[..k], moves[k].0);
    }
  }

  /** The snapshots whose hand-over came out as `ok`, each with its prefix. */
  function Handed(s: State, moves: seq<(nat, Action)>, ok: bool): multiset<(nat, Taken)>
    requires After(s, moves).Some?
  {
    if moves == [] then multiset{}
    else
      var k := |moves| - 1;
      Handed(s, moves[..k], ok)
      + if moves[k].1 == Put(ok) then InHand(After(s, moves[..k]).value.cpus[moves[k].0]) else multiset{}
  }

  lemma {:induction false} HandedIsKept(s: State, moves: seq<(nat, Action)>)
    requires Init(s) && After(s, moves).Some?
    ensures After(s, moves).value.submitted == Handed(s, moves, true)
    ensures After(s, moves).value.dropped == Handed(s, moves, false)
  {
    if moves != [] {
      hide Init, Step, InHand;
      var k := |moves| - 1;
      HandedIsKept(s, moves[..k]);
      HandOver(After(s, moves[..k]).value, moves[k].0, moves[k].1);
    }
  }

  lemma {:induction false} HandOver(s: State, c: nat, a: Action)
    requires Enabled(s, c, a)
    ensures Step(s, c, a).submitted == s.submitted + if a == Put(true) then InHand(s.cpus[c]) else multiset{}
    ensures Step(s, c, a).dropped == s.dropped + if a == Put(false) then InHand(s.cpus[c]) else multiset{}
  {
    hide Folded, Emptied, Due;
  }

  /**
    After every interleaving and for every prefix: the samples folded are those of the probes that locked it, and
    they are the samples of the snapshots taken, in order, followed by the live window. Each snapshot was handed over,
    refused or is still in hand, exactly once. Each of them and the live counters are the totals and the maximum of
    their own window, and for positive latencies the minimum too.
   */
  lemma {:induction false} Conservation(s: State, moves: seq<(nat, Action)>, i: nat)
    requires Init(s) && After(s, moves).Some? && i < NUM_PATH_PREFIX
    ensures var t := After(s, moves).value;
            |t.prefixes| == NUM_PATH_PREFIX
            && AllTaken(t.prefixes) == Handed(s, moves, true) + Handed(s, moves, false) + Pending(t.cpus)
    ensures var p := After(s, moves).value.prefixes[i];
            Windows(p.taken) + p.live == Folds(s, moves, i) && Describes(p.stats, p.live)
            && forall k :: 0 <= k < |p.taken| ==> Describes(p.taken[k].snapshot, p.taken[k].window)
  {
    hide Init, Describes, Folds, Windows, Handed;
    EveryRunKeepsInv(s, moves);
    HandedIsKept(s, moves);
    FoldedIsFolds(s, moves, i);
    var p := After(s, moves).value.prefixes[i];
    FoldDescribes(p.start, p.live);
    forall k | 0 <= k < |p.taken| ensures Describes(p.taken[k].snapshot, p.taken[k].window) {
      FoldDescribes(p.taken[k].start, p.taken[k].window);
    }
  }

  /** The counters say the truth about a window. */
  ghost predicate Describes(f: Stats, w: seq<Sample>) {
    && f.count == |w| % TWO64 && f.totalLat == SumLat(w) % TWO64 && f.totalBytes == SumBytes(w) % TWO64
    && (w != [] ==> IsMax(f.max, w))
    && (w != [] ==> (IsMin(f.min, w) <==> Positive(w) || w[|w| - 1].lat == 0))
    && (w != [] && Positive(w) && SumLat(w) < TWO64 && |w| < TWO64 ==>
          f.min * f.count <= f.totalLat <= f.max * f.count)
  }

  lemma {:induction false} FoldDescribes(s: Stats, w: seq<Sample>)
    requires Fresh(s)
    ensures Describes(Fold(s, w), w)
  {
    hide Fold, SumLat, SumBytes, Fresh;
    FoldTotals(s, w);
    if w != [] {
      FoldMin(s, w);
      if Positive(w) && SumLat(w) < TWO64 && |w| < TWO64 {
        WindowBounds(s, w);
      }
    }
  }

  // ----- the spacing of publishes -----

  /** Time `b` comes more than a second after time `a`, on unsigned 64-bit nanoseconds. */
  predicate Apart(a: u64, b: u64) {
    (b - a) % 0x1_0000_0000_0000_0000 > 1_000_000_000
  }

  /**
    The publish times of a prefix are more than a second apart. A window starts at the publish time before it, so these
    are the starts of the snapshots and of the live window.
   */
  predicate Spaced(p: Prefix) {
    && p.stats.lastPublish == p.start.lastPublish
    && (forall k :: 0 < k < |p.taken| ==> Apart(p.taken[k - 1].start.lastPublish, p.taken[k].start.lastPublish))
    && (p.taken != [] ==> Apart(p.taken[|p.taken| - 1].start.lastPublish, p.start.lastPublish))
  }

  /** On one CPU, what was decided before the lock still holds under it. */
  ghost predicate Sequential(s: State) {
    && |s.cpus| == 1 && |s.prefixes| == NUM_PATH_PREFIX
    && (forall i :: 0 <= i < NUM_PATH_PREFIX ==> Spaced(s.prefixes[i]))
    && (s.cpus[0].Decided? ==>
          s.cpus[0].idx < NUM_PATH_PREFIX
          && (s.cpus[0].publish <==> Apart(s.prefixes[s.cpus[0].idx].stats.lastPublish, s.cpus[0].probe.now)))
  }

  lemma {:induction false} SequentialStep(s: State, a: Action)
    requires Sequential(s) && Enabled(s, 0, a)
    ensures Sequential(Step(s, 0, a))
  {
    if a.Lock? {
      SequentialLock(s);
    } else {
      hide Spaced;
    }
  }

  lemma {:induction false} SequentialLock(s: State)
    requires Sequential(s) && Enabled(s, 0, Lock)
    ensures Sequential(Step(s, 0, Lock))
  {
    var cpu, t := s.cpus[0], Step(s, 0, Lock);
    SpacedLock(s.prefixes[cpu.idx], cpu.probe.sample, cpu.probe.now);
    forall i | 0 <= i < NUM_PATH_PREFIX ensures Spaced(t.prefixes[i]) {
      assert Spaced(s.prefixes[i]);
    }
  }

  lemma {:induction false} SpacedLock(p: Prefix, x: Sample, now: u64)
    requires Spaced(p)
    ensures var q := Folded(p, x);
            Spaced(q) && (Apart(p.stats.lastPublish, now) ==> Spaced(Emptied(q, Taken(q.start, q.live, q.stats), now)))
  {
    var q := Folded(p, x);
    var r := Emptied(q, Taken(q.start, q.live, q.stats), now);
    if Apart(p.stats.lastPublish, now) {
      var n := |p.taken|;
      forall k | 0 < k < |r.taken| ensures Apart(r.taken[k - 1].start.lastPublish, r.taken[k].start.lastPublish) {
        assert r.taken[k - 1] == p.taken[k - 1];
        assert k < n ==> r.taken[k] == p.taken[k];
      }
    }
  }

  /** In every run of a single CPU, publishes of a prefix are more than a second apart. */
  lemma {:induction false} SequentialRunsAreSpaced(s: State, moves: seq<(nat, Action)>)
    requires Init(s) && |s.cpus| == 1 && After(s, moves).Some?
    ensures Sequential(After(s, moves).value)
  {
    hide Step, Sequential, Init;
    if moves == [] {
      SequentialStart(s);
    } else {
      var k := |moves| - 1;
      SequentialRunsAreSpaced(s, moves[..k]);
      SameCpus(s, moves[..k]);
      SequentialStep(After(s, moves[..k]).value, moves[k].1);
    }
  }

  lemma {:induction false} SequentialStart(s: State)
    requires Init(s) && |s.cpus| == 1
    ensures Sequential(s)
  {
  }

  /** And the sample that is being folded is published exactly when the last publish is more than a second ago. */
  lemma {:induction false} PublishesExactlyWhenDue(s: State, moves: seq<(nat, Action)>)
    requires Init(s) && |s.cpus| == 1 && After(s, moves).Some? && Enabled(After(s, moves).value, 0, Lock)
    requires After(s, moves + [(0, Lock)]).Some?
    ensures var (t, t') := (After(s, moves).value, After(s, moves + [(0, Lock)]).value);
            |t.prefixes| == |t'.prefixes| == NUM_PATH_PREFIX && t.cpus[0].Decided? && t.cpus[0].idx < NUM_PATH_PREFIX
            && var (p, p') := (t.prefixes[t.cpus[0].idx], t'.prefixes[t.cpus[0].idx]);
            if Apart(p.stats.lastPublish, t.cpus[0].probe.now)
            then |p'.taken| == |p.taken| + 1 && p'.stats.lastPublish == t.cpus[0].probe.now
            else p'.taken == p.taken && p'.stats.lastPublish == p.stats.lastPublish
  {
    assert (moves + [(0, Lock)])[..|moves|] == moves;
    SequentialRunsAreSpaced(s, moves);
  }

  /** On two CPUs it fails: both look before either locks, and publish at the same time. */
  lemma {:induction false} TwoCpusPublishAtOnce(s: State, probe: Probe)
    requires Init(s) && |s.cpus| == 2 && probe.matches == {0} && Apart(s.prefixes[0].stats.lastPublish, probe.now)
    ensures var moves := [(0, Begin(probe)), (1, Begin(probe)), (0, Look), (1, Look), (0, Lock), (1, Lock)];
            After(s, moves).Some?
            && var p := After(s, moves).value.prefixes[0];
            |p.taken| == 2 && p.taken[1].start.lastPublish == p.start.lastPublish == probe.now
  {
    var m1, m2 := [(0, Begin(probe))], [(0, Begin(probe)), (1, Begin(probe))];
    var m3, m4 := m2 + [(0, Look)], m2 + [(0, Look)] + [(1, Look)];
    NextMove(s, [], 0, Begin(probe));
    var s1 := Step(s, 0, Begin(probe));
    assert [] + m1 == m1 && s1.cpus == [At(probe, 0), Idle];
    NextMove(s, m1, 1, Begin(probe));
    var s2 := Step(s1, 1, Begin(probe));
    assert m1 + [(1, Begin(probe))] == m2 && s2.cpus == [At(probe, 0), At(probe, 0)];
    NextMove(s, m2, 0, Look);
    var s3 := Step(s2, 0, Look);
    assert s3.cpus == [Decided(probe, 0, true), At(probe, 0)];
    NextMove(s, m3, 1, Look);
    var s4 := Step(s3, 1, Look);
    assert s4.cpus == [Decided(probe, 0, true), Decided(probe, 0, true)] && s4.prefixes == s.prefixes;
    NextMove(s, m4, 0, Lock);
    var s5 := Step(s4, 0, Lock);
    assert s5.cpus[1] == Decided(probe, 0, true);
    NextMove(s, m4 + [(0, Lock)], 1, Lock);
    assert m4 + [(0, Lock)] + [(1, Lock)]
      == [(0, Begin(probe)), (1, Begin(probe)), (0, Look), (1, Look), (0, Lock), (1, Lock)];
  }
}
