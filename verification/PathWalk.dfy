/**
  Resolving the path of an open file inside a probe: a bounded walk up the dentry tree stores names in a
  ring of sixteen slots, and the names nearest the root are then assembled into a 32-byte fragment.
 */
module PathWalk {
  import opened Wire
  import opened PathSpec

  // ----- what the bounded walk finds -----

  /** The names a walk has passed, root first, and whether it reached the top. */
  datatype Walk = Walk(names: seq<bytes>, absolute: bool)

  /** One move towards the root: none is left, the root of a mount continues at its mount point, or a name is passed. */
  datatype Move = Top | Cross(dentry: Dentry, mount: Mount) | Pass(up: Dentry)

  function NextMove(v: Vfs, d: Dentry, m: Mount): Move {
    if d == v.rootDentry && m == v.rootMount then Top
    else if d == v.mntRoot(m) && m != v.mntParent(m) then Cross(v.mountpoint(m), v.mntParent(m))
    else if d == v.parent(d) then Top
    else Pass(v.parent(d))
  }

  function WalkFrom(v: Vfs, d: Dentry, m: Mount, left: nat, seen: nat): Walk
    decreases left
  {
    if left == 0 then Walk([], false)
    else match NextMove(v, d, m)
      case Top => Walk([], true)
      case Cross(d', m') => WalkFrom(v, d', m', left - 1, seen)
      case Pass(up) =>
        if seen + 1 > MAX_PARENT then Walk([v.name(d)], false)
        else
          var w := WalkFrom(v, up, m, left - 1, seen + 1);
          Walk(w.names + [v.name(d)], w.absolute)
  }

  function WalkOf(v: Vfs, d: Dentry, m: Mount): Walk {
    WalkFrom(v, d, m, MAX_PARENT_LOOP, 0)
  }

  /** (d, m) has the absolute path `names`, with fewer than `left` names and mount points on the way. */
  ghost predicate Within(v: Vfs, d: Dentry, m: Mount, names: seq<bytes>, left: nat) {
    exists mounts: nat :: |names| + mounts < left && IsPath(v, d, m, names, mounts)
  }

  /** A path the walk can reach: at most 32 names, none of them empty, and fewer than 64 names and mount points. */
  ghost predicate Reachable(v: Vfs, d: Dentry, m: Mount, names: seq<bytes>) {
    |names| <= MAX_PARENT && NonEmptyNames(names) && Within(v, d, m, names, MAX_PARENT_LOOP)
  }

  /** A file with the names `inner` inside a mounted file system, whose mount point has the path `outer`. */
  ghost predicate Mounted(v: Vfs, d: Dentry, m: Mount, outer: seq<bytes>, inner: seq<bytes>, mounts: nat) {
    && m != v.mntParent(m) && !IsRoot(v, v.mntRoot(m), m) && Leads(v, m, v.mntRoot(m), d, inner)
    && IsPath(v, v.mountpoint(m), v.mntParent(m), outer, mounts)
    && NonEmptyNames(outer + inner) && |outer + inner| <= MAX_PARENT && |outer + inner| + mounts + 1 < MAX_PARENT_LOOP
  }

  lemma {:induction false} MountedIsReachable(
    v: Vfs, d: Dentry, m: Mount, outer: seq<bytes>, inner: seq<bytes>, mounts: nat)
    requires Mounted(v, d, m, outer, inner, mounts)
    ensures Reachable(v, d, m, outer + inner)
  {
    hide IsPath, Leads;
    PathThroughMount(v, d, m, outer, inner, mounts);
  }

  lemma {:induction false} WithinTop(v: Vfs, d: Dentry, m: Mount, names: seq<bytes>, left: nat)
    requires left > 0 && NextMove(v, d, m).Top?
    ensures Within(v, d, m, names, left) <==> names == []
  {
    hide IsPath;
    PathAtTop(v, d, m, names, 0);
    if mounts: nat :| |names| + mounts < left && IsPath(v, d, m, names, mounts) {
      PathAtTop(v, d, m, names, mounts);
    }
  }

  lemma {:induction false} WithinCross(v: Vfs, d: Dentry, m: Mount, names: seq<bytes>, left: nat)
    requires left > 0 && NextMove(v, d, m).Cross?
    ensures var c := NextMove(v, d, m);
            Within(v, d, m, names, left) <==> Within(v, c.dentry, c.mount, names, left - 1)
  {
    hide IsPath;
    var c := NextMove(v, d, m);
    if mounts: nat :| |names| + mounts < left && IsPath(v, d, m, names, mounts) {
      PathAtMountRoot(v, d, m, names, mounts);
      assert IsPath(v, c.dentry, c.mount, names, mounts - 1);
    }
    if mounts: nat :| |names| + mounts < left - 1 && IsPath(v, c.dentry, c.mount, names, mounts) {
      PathAtMountRoot(v, d, m, names, mounts + 1);
      assert IsPath(v, d, m, names, mounts + 1);
    }
  }

  lemma {:induction false} WithinPass(v: Vfs, d: Dentry, m: Mount, names: seq<bytes>, left: nat)
    requires left > 0 && NextMove(v, d, m).Pass?
    ensures Within(v, d, m, names, left)
       <==> names != [] && names[|names| - 1] == v.name(d)
            && Within(v, NextMove(v, d, m).up, m, names[..|names| - 1], left - 1)
  {
    hide IsPath;
    if mounts: nat :| |names| + mounts < left && IsPath(v, d, m, names, mounts) {
      PathBelow(v, d, m, names, mounts);
    }
    if names != [] && names[|names| - 1] == v.name(d) {
      var init := names[..|names| - 1];
      if mounts: nat :| |init| + mounts < left - 1 && IsPath(v, v.parent(d), m, init, mounts) {
        PathBelow(v, d, m, names, mounts);
      }
    }
  }

  /** The walk finds a path exactly when the root is close enough: in moves left, and in names left. */
  lemma {:induction false} WalkFinds(v: Vfs, d: Dentry, m: Mount, left: nat, seen: nat, names: seq<bytes>)
    requires seen <= MAX_PARENT
    ensures WalkFrom(v, d, m, left, seen) == Walk(names, true)
       <==> seen + |names| <= MAX_PARENT && Within(v, d, m, names, left)
    decreases left
  {
    hide IsPath;
    if left > 0 {
      hide Within;
      match NextMove(v, d, m)
      case Top =>
        WithinTop(v, d, m, names, left);
      case Cross(d', m') =>
        WithinCross(v, d, m, names, left);
        WalkFinds(v, d', m', left - 1, seen, names);
      case Pass(up) =>
        WithinPass(v, d, m, names, left);
        if seen + 1 <= MAX_PARENT {
          var w := WalkFrom(v, up, m, left - 1, seen + 1);
          assert (w.names + [v.name(d)])[..|w.names|] == w.names;
          if names != [] {
            var init := names[..|names| - 1];
            assert names == init + [names[|names| - 1]];
            WalkFinds(v, up, m, left - 1, seen + 1, init);
          }
        }
    }
  }

  // ----- assembling -----

  function Lead(absolute: bool): bytes {
    if absolute then [SLASH] else []
  }

  /** What the first `i` rounds of the assembly append: names with a slash after each but the last. */
  function Body(cs: seq<bytes>, i: nat): bytes
    requires i <= |cs|
  {
    if i == 0 then [] else Body(cs, i - 1) + cs[i - 1] + (if i < |cs| then [SLASH] else [])
  }

  function Text(lead: bytes, cs: seq<bytes>, i: nat): bytes
    requires i <= |cs|
  {
    lead + Body(cs, i)
  }

  lemma {:induction false} BodyIsSlashed(cs: seq<bytes>, i: nat)
    requires i <= |cs|
    ensures [SLASH] + Body(cs, i) == Slashed(cs[..i]) + (if i < |cs| || i == 0 then [SLASH] else [])
  {
    if i > 0 {
      BodyIsSlashed(cs, i - 1);
      assert cs[..i][..i - 1] == cs[..i - 1];
    }
  }

  lemma {:induction false} AssembledPath(cs: seq<bytes>)
    ensures Text(Lead(true), cs, |cs|) == AbsolutePath(cs)
  {
    BodyIsSlashed(cs, |cs|);
    assert cs[..|cs|] == cs;
  }

  lemma {:induction false} BodyGrows(cs: seq<bytes>, i: nat, k: nat)
    requires i <= k <= |cs|
    ensures Body(cs, i) <= Body(cs, k)
  {
    if i < k {
      BodyGrows(cs, i, k - 1);
    }
  }

  function Overwrite(f: bytes, off: nat, src: bytes): bytes
    requires off + |src| <= |f|
  {
    f[..off] + src + f[off + |src|..]
  }

  function Min(a: nat, b: nat): nat { if a < b then a else b }

  /** Writing as much of `src` as fits behind `s` extends the fragment of `s` to the fragment of `s + src`. */
  lemma {:induction false} FragmentAppend(s: bytes, src: bytes)
    requires |s| <= PATHFRAGLEN
    ensures var k := Min(PATHFRAGLEN - |s|, |src|);
            Overwrite(Fragment(s), |s|, src[..k]) == Fragment(s + src)
  {
    var k := Min(PATHFRAGLEN - |s|, |src|);
    var w := Overwrite(Fragment(s), |s|, src[..k]);
    assert Fragment(s)[..|s|] == s;
    forall j | 0 <= j < PATHFRAGLEN ensures w[j] == Fragment(s + src)[j] {
    }
  }

  function Sep(last: bool): bytes {
    if last then [] else [SLASH]
  }

  lemma {:induction false} BodyStep(lead: bytes, cs: seq<bytes>, i: nat)
    requires i < |cs|
    ensures Text(lead, cs, i + 1) == Text(lead, cs, i) + cs[i] + Sep(i == |cs| - 1)
  {
  }

  /** What one round writes: the part of the name that fits, then a slash if there is room and another name follows. */
  function RoundWritten(f: bytes, off: nat, name: bytes, last: bool): bytes
    requires off <= |f| == PATHFRAGLEN
  {
    var f1 := Overwrite(f, off, name[..Min(PATHFRAGLEN - off, |name|)]);
    if !last && off + |name| + 1 <= PATHFRAGLEN then Overwrite(f1, off + |name|, [SLASH]) else f1
  }

  /** A round extends the fragment of `s` to that of `s`, the name and its separator, and counts the bytes up to 33. */
  lemma {:induction false} RoundWrites(s: bytes, name: bytes, last: bool)
    requires |s| <= PATHFRAGLEN
    ensures RoundWritten(Fragment(s), |s|, name, last) == Fragment(s + name + Sep(last))
    ensures |s| + Min(PATHFRAGLEN - |s|, |name|) + |Sep(last)|
         == Min(|s + name + Sep(last)|, PATHFRAGLEN + |Sep(last)|)
  {
    FragmentAppend(s, name);
    var t := s + name;
    if last {
      assert t + Sep(last) == t;
    } else if |t| < PATHFRAGLEN {
      FragmentAppend(t, [SLASH]);
      assert [SLASH][..1] == [SLASH];
    } else {
      assert (t + [SLASH])[..PATHFRAGLEN] == t[..PATHFRAGLEN];
    }
  }

  datatype PathComponent = PathComponent(len: nat, comp: bytes) {
    predicate Valid() { len < PATHFRAGLEN == |comp| }
    function Name(): bytes requires Valid() { comp[..len] }
  }

  /** The slot of the ring that holds the `i`-th name from the root when `count` names have been stored. */
  function Slot(count: nat, i: nat): (r: nat)
    requires i < count
    ensures r < NUM_COMP
  {
    (count - 1 - i) % NUM_COMP
  }

  lemma {:induction false} NextSlot(n: nat)
    ensures (n % NUM_COMP + 1) % NUM_COMP == (n + 1) % NUM_COMP
  {
  }

  /** `PathWalkCtx`: where the walk stands and how many names it has stored. */
  datatype WalkCtx = WalkCtx(dentry: Dentry, mount: Mount, loopCtr: nat, modCtr: nat, absolute: bool) {
    ghost predicate Counts(names: seq<bytes>) {
      loopCtr == |names| && modCtr == loopCtr % NUM_COMP
    }
  }

  /** Where a walk with `left` rounds to go will end, having passed `names` so far. */
  ghost function Ahead(v: Vfs, c: WalkCtx, left: nat, names: seq<bytes>): Walk {
    var w := WalkFrom(v, c.dentry, c.mount, left, c.loopCtr);
    Walk(w.names + names, w.absolute)
  }

  lemma {:induction false} AheadOfAll(v: Vfs, d: Dentry, m: Mount)
    ensures Ahead(v, WalkCtx(d, m, 0, 0, false), MAX_PARENT_LOOP, []) == WalkOf(v, d, m)
  {
    var w := WalkOf(v, d, m);
    assert w.names + [] == w.names;
  }

  lemma {:induction false} NothingAhead(v: Vfs, c: WalkCtx, names: seq<bytes>)
    ensures Ahead(v, c, 0, names) == Walk(names, false)
  {
    assert [] + names == names;
  }

  /** Counting slots back from the last one stored, modulo the ring, finds the names from the root on. */
  lemma {:induction false} SlotIndex(count: nat, i: nat)
    requires i < count
    ensures ((count % NUM_COMP - 1) % NUM_COMP - i) % NUM_COMP == Slot(count, i)
  {
  }

  lemma {:induction false} SlotsDiffer(count: nat, i: nat, j: nat)
    requires i < j < count && j - i < NUM_COMP
    ensures Slot(count, i) != Slot(count, j)
  {
  }

  class Resolver {
    const ring: array<PathComponent>
    const frag: array<byte>

    ghost predicate Valid()
      reads ring
    {
      ring.Length == NUM_COMP && frag.Length == PATHFRAGLEN
      && forall i :: 0 <= i < NUM_COMP ==> ring[i].Valid()
    }

    constructor ()
      ensures Valid() && fresh(ring) && fresh(frag) && frag[..] == seq(PATHFRAGLEN, _ => 0)
    {
      ring := new PathComponent[NUM_COMP](_ => PathComponent(0, seq(PATHFRAGLEN, _ => 0)));
      frag := new byte[PATHFRAGLEN](_ => 0);
    }

    /** The ring holds the first `k` of `names` (root first), as far as a slot goes. */
    ghost predicate Holds(names: seq<bytes>, from: nat, k: nat)
      requires Valid() && k <= |names|
      reads ring
    {
      forall i :: from <= i < k ==> ring[Slot(|names|, i)].Name() == Cut(names[i])
    }

    /** `bpf_probe_read_kernel_str_bytes`: copy a name with its terminator; bytes beyond it stay as they were. */
    method StoreName(slot: nat, name: bytes)
      requires Valid() && slot < NUM_COMP
      modifies ring
      ensures Valid() && ring[slot].Name() == Cut(name)
      ensures forall i :: 0 <= i < NUM_COMP && i != slot ==> ring[i] == old(ring[i])
    {
      var k := if |name| < PATHFRAGLEN then |name| else PATHFRAGLEN - 1;
      ring[slot] := PathComponent(k, name[..k] + [0] + ring[slot].comp[k + 1..]);
    }

    /** Store the next name on the way up in the slot after the last one. */
    method PushName(slot: nat, name: bytes, ghost names: seq<bytes>)
      requires Valid() && slot == |names| % NUM_COMP && Holds(names, 0, Min(NUM_COMP, |names|))
      modifies ring
      ensures Valid() && Holds([name] + names, 0, Min(NUM_COMP, |names| + 1))
    {
      StoreName(slot, name);
      ghost var all := [name] + names;
      forall j | 0 <= j < Min(NUM_COMP, |all|) ensures ring[Slot(|all|, j)].Name() == Cut(all[j]) {
        if j > 0 {
          SlotsDiffer(|all|, 0, j);
          assert Slot(|all|, j) == Slot(|names|, j - 1);
        }
      }
    }

    /** `path_walk_step`; `stop` is its return value 1. */
    method WalkStep(v: Vfs, c: WalkCtx, ghost names: seq<bytes>, ghost left: nat)
      returns (stop: bool, c': WalkCtx, ghost names': seq<bytes>)
      requires Valid() && left > 0 && !c.absolute && c.loopCtr <= MAX_PARENT && c.Counts(names)
      requires Holds(names, 0, Min(NUM_COMP, c.loopCtr))
      modifies ring
      ensures Valid() && c'.Counts(names') && Holds(names', 0, Min(NUM_COMP, c'.loopCtr))
      ensures !stop ==> !c'.absolute && c'.loopCtr <= MAX_PARENT
      ensures Ahead(v, c, left, names) == if stop then Walk(names', c'.absolute) else Ahead(v, c', left - 1, names')
    {
      hide Holds, Cut, Slot;
      c', names', stop := c, names, true;
      var d, m := c.dentry, c.mount;
      assert [] + names == names;
      if d == v.rootDentry && m == v.rootMount {
        c' := c.(absolute := true);
        return;
      }
      if d == v.mntRoot(m) {
        var parentMnt := v.mntParent(m);
        if m != parentMnt {
          c', stop := c.(dentry := v.mountpoint(m), mount := parentMnt), false;
          return;
        }
      }
      var up := v.parent(d);
      if d == up {
        c' := c.(absolute := true);
        return;
      }
      PushName(c.modCtr, v.name(d), names);
      names' := [v.name(d)] + names;
      NextSlot(c.loopCtr);
      c' := c.(dentry := up, loopCtr := c.loopCtr + 1, modCtr := (c.modCtr + 1) % NUM_COMP);
      stop := c'.loopCtr > MAX_PARENT;
      ghost var w := WalkFrom(v, up, m, left - 1, c'.loopCtr);
      assert (w.names + [v.name(d)]) + names == w.names + names';
    }

    /** The walk loop over `path_walk_step`. */
    method WalkUp(v: Vfs, dentry: Dentry, mount: Mount) returns (c: WalkCtx, ghost names: seq<bytes>)
      requires Valid()
      modifies ring
      ensures Valid() && Walk(names, c.absolute) == WalkOf(v, dentry, mount)
      ensures c.Counts(names) && Holds(names, 0, Min(NUM_COMP, c.loopCtr))
    {
      c, names := WalkCtx(dentry, mount, 0, 0, false), [];
      var i := 0;
      AheadOfAll(v, dentry, mount);
      assert Holds(names, 0, 0);
      hide Ahead, Holds, WalkFrom;
      while i < MAX_PARENT_LOOP
        invariant i <= MAX_PARENT_LOOP && Valid() && !c.absolute && c.loopCtr <= MAX_PARENT
        invariant c.Counts(names) && Holds(names, 0, Min(NUM_COMP, c.loopCtr))
        invariant Ahead(v, c, MAX_PARENT_LOOP - i, names) == WalkOf(v, dentry, mount)
      {
        var stop;
        stop, c, names := WalkStep(v, c, names, MAX_PARENT_LOOP - i);
        if stop {
          return;
        }
        i := i + 1;
      }
      NothingAhead(v, c, names);
    }

    /** `bpf_dynptr_write`: a copy that fails when it would leave the buffer. */
    method DynptrWrite(off: nat, src: bytes) returns (ok: bool)
      requires frag.Length == PATHFRAGLEN
      modifies frag
      ensures ok <==> off + |src| <= PATHFRAGLEN
      ensures frag[..] == if ok then Overwrite(old(frag[..]), off, src) else old(frag[..])
    {
      ok := off + |src| <= PATHFRAGLEN;
      if ok {
        forall j | 0 <= j < |src| {
          frag[off + j] := src[j];
        }
      }
    }

    /** The ring slots from the last one back hold the components `cs` from number `from` on. */
    ghost predicate HoldsComponents(count: nat, cs: seq<bytes>, from: nat)
      requires Valid() && |cs| <= count
      reads ring
    {
      forall i :: from <= i < |cs| ==> ring[Slot(count, i)].Name() == cs[i]
    }

    /** One round of `assemble_pathfrag`; `stop` is its return value 1. */
    method AssembleRound(index: nat, start: nat, components: nat, copied: nat, ghost cs: seq<bytes>, ghost lead: bytes)
      returns (stop: bool, now: nat)
      requires Valid() && start < NUM_COMP && index < components == |cs| <= NUM_COMP
      requires ring[(start - index) % NUM_COMP].Name() == cs[index]
      requires frag[..] == Fragment(Text(lead, cs, index)) && copied == Min(|Text(lead, cs, index)|, PATHFRAGLEN + 1)
      modifies ring, frag
      ensures Valid() && forall i :: 0 <= i < NUM_COMP && i != (start - index) % NUM_COMP ==> ring[i] == old(ring[i])
      ensures stop <==> copied > PATHFRAGLEN
      ensures stop ==> frag[..] == old(frag[..])
      ensures !stop ==> frag[..] == Fragment(Text(lead, cs, index + 1))
      ensures !stop ==>
        now == Min(|Text(lead, cs, index + 1)|, if index < components - 1 then PATHFRAGLEN + 1 else PATHFRAGLEN)
    {
      hide Text, Fragment, Overwrite;
      var idx := (start - index) % NUM_COMP;
      var elem := ring[idx];
      var len := if elem.len > PATHFRAGLEN then PATHFRAGLEN else elem.len;
      var remaining := (PATHFRAGLEN - copied) % 0x1_0000_0000;
      if copied > PATHFRAGLEN || remaining > PATHFRAGLEN {
        return true, copied;
      }
      BodyStep(lead, cs, index);
      RoundWrites(Text(lead, cs, index), cs[index], index == components - 1);
      var k := Min(remaining, len);
      assert elem.comp[..k] == cs[index][..k];
      var _ := DynptrWrite(copied, elem.comp[..k]);
      if index < components - 1 {
        var _ := DynptrWrite(copied + len, [SLASH]);
        now := copied + k + 1;
      } else {
        now := copied + k;
      }
      ring[idx] := elem.(len := 0);
      stop := false;
    }

    /** A round on the ring as the walk left it: the components not yet copied stay in their slots. */
    method AssembleNext(index: nat, count: nat, modCtr: nat, copied: nat, ghost cs: seq<bytes>, ghost lead: bytes)
      returns (stop: bool, now: nat)
      requires Valid() && index < |cs| == Min(NUM_COMP, count) && HoldsComponents(count, cs, index)
      requires modCtr == count % NUM_COMP
      requires frag[..] == Fragment(Text(lead, cs, index)) && copied == Min(|Text(lead, cs, index)|, PATHFRAGLEN + 1)
      modifies ring, frag
      ensures Valid() && HoldsComponents(count, cs, index + 1)
      ensures frag[..] == Fragment(Text(lead, cs, if stop then |cs| else index + 1))
      ensures !stop && index + 1 < |cs| ==> now == Min(|Text(lead, cs, index + 1)|, PATHFRAGLEN + 1)
    {
      hide Text, Fragment, Overwrite, Slot;
      var start, components := (modCtr - 1) % NUM_COMP, Min(NUM_COMP, count);
      SlotIndex(count, index);
      stop, now := AssembleRound(index, start, components, copied, cs, lead);
      if stop {
        FullFragment(lead, cs, index);
      }
      forall j | index + 1 <= j < |cs| ensures ring[Slot(count, j)].Name() == cs[j] {
        SlotsDiffer(count, index, j);
      }
    }

    /** The assembly loop over `assemble_pathfrag`, behind a slash for an absolute path. */
    method Assemble(count: nat, modCtr: nat, absolute: bool, ghost cs: seq<bytes>) returns (copied: nat)
      requires Valid() && frag[..] == Fragment([])
      requires modCtr == count % NUM_COMP && |cs| == Min(NUM_COMP, count) && HoldsComponents(count, cs, 0)
      modifies ring, frag
      ensures Valid() && frag[..] == Fragment(Text(Lead(absolute), cs, |cs|))
    {
      copied := WriteLead(absolute, cs);
      var index := 0;
      hide Text, Fragment, HoldsComponents;
      while index < Min(NUM_COMP, count)
        invariant index <= |cs| && Valid() && HoldsComponents(count, cs, index)
        invariant frag[..] == Fragment(Text(Lead(absolute), cs, index))
        invariant index < |cs| ==> copied == Min(|Text(Lead(absolute), cs, index)|, PATHFRAGLEN + 1)
      {
        var stop;
        stop, copied := AssembleNext(index, count, modCtr, copied, cs, Lead(absolute));
        if stop {
          return;
        }
        index := index + 1;
      }
    }

    method WriteLead(absolute: bool, ghost cs: seq<bytes>) returns (copied: nat)
      requires frag.Length == PATHFRAGLEN && frag[..] == Fragment([])
      modifies frag
      ensures frag[..] == Fragment(Text(Lead(absolute), cs, 0))
      ensures copied == |Text(Lead(absolute), cs, 0)| <= 1
    {
      copied := 0;
      assert Text(Lead(absolute), cs, 0) == Lead(absolute);
      if absolute {
        FragmentAppend([], [SLASH]);
        assert [] + [SLASH] == [SLASH] && [SLASH][..1] == [SLASH];
        var _ := DynptrWrite(0, [SLASH]);
        copied := 1;
      }
    }

    /** `partial_d_path`: walk up, then assemble the fragment in a zeroed buffer. */
    method PartialDPath(v: Vfs, dentry: Dentry, mount: Mount) returns (copied: nat)
      requires Valid() && frag[..] == Fragment([])
      modifies ring, frag
      ensures Valid()
      ensures var w := WalkOf(v, dentry, mount);
              var cs := CutAll(Kept(w.names));
              frag[..] == Fragment(Text(Lead(w.absolute), cs, |cs|))
      ensures forall names | Reachable(v, dentry, mount, names) :: frag[..] == Fragment(AbsolutePath(names))
      ensures forall outer, inner, mounts | Mounted(v, dentry, mount, outer, inner, mounts) ::
                frag[..] == Fragment(AbsolutePath(outer + inner))
    {
      var c, names := WalkUp(v, dentry, mount);
      ghost var cs := CutAll(Kept(names));
      copied := Assemble(c.loopCtr, c.modCtr, c.absolute, cs);
      forall names' | Reachable(v, dentry, mount, names')
        ensures Fragment(Text(Lead(c.absolute), cs, |cs|)) == Fragment(AbsolutePath(names'))
      {
        PathFound(v, dentry, mount, names');
      }
      forall outer, inner, mounts | Mounted(v, dentry, mount, outer, inner, mounts)
        ensures Reachable(v, dentry, mount, outer + inner)
      {
        MountedIsReachable(v, dentry, mount, outer, inner, mounts);
      }
    }

    /**
      The entry probe: record the fragment and clear the buffer for the next call. Whether the record starts
      with a configured prefix is whether the whole absolute path does.
     */
    method TryEntry(v: Vfs, dentry: Dentry, mount: Mount) returns (path: bytes)
      requires Valid() && frag[..] == Fragment([])
      modifies ring, frag
      ensures Valid() && frag[..] == Fragment([]) && |path| == PATHFRAGLEN
      ensures forall names, prefix: bytes |
                Reachable(v, dentry, mount, names)
                && 1 <= |prefix| <= PATHFRAGLEN && 0 !in prefix ::
                path[..|prefix|] == prefix <==> prefix <= AbsolutePath(names)
    {
      var _ := PartialDPath(v, dentry, mount);
      path := frag[..];
      forall names, prefix: bytes |
        Reachable(v, dentry, mount, names)
        && 1 <= |prefix| <= PATHFRAGLEN && 0 !in prefix
        ensures path[..|prefix|] == prefix <==> prefix <= AbsolutePath(names)
      {
        FragmentDecidesPrefix(prefix, AbsolutePath(names));
      }
      forall i | 0 <= i < PATHFRAGLEN {
        frag[i] := 0;
      }
      assert frag[..] == Fragment([]);
    }
  }

  /** Compare the first `len` bytes of a table entry with a recorded path. */
  method StartsWith(needle: bytes, haystack: bytes, len: nat) returns (r: bool)
    requires |needle| == |haystack| == PATHFRAGLEN
    ensures r <==> 1 <= len <= PATHFRAGLEN && haystack[..len] == needle[..len]
  {
    if len == 0 || len > |haystack| {
      return false;
    }
    for i := 0 to len
      invariant haystack[..i] == needle[..i]
    {
      if haystack[i] != needle[i] {
        assert haystack[..len][i] != needle[..len][i];
        return false;
      }
    }
    return true;
  }

  /** A configured prefix: a slice of 32 bytes of which the first `len` count. */
  datatype TableEntry = TableEntry(slice: bytes, len: nat) {
    predicate Valid() { |slice| == PATHFRAGLEN }

    /** The recorded path begins with the prefix. */
    predicate Hits(path: bytes) {
      Valid() && |path| == PATHFRAGLEN && 1 <= len <= PATHFRAGLEN && path[..len] == slice[..len]
    }

    /** The entry is used, and its prefix can be told from the padding of a fragment. */
    predicate Configured() {
      Valid() && 1 <= len <= PATHFRAGLEN && 0 !in slice[..len]
    }
  }

  /** The loop of the exit probe over the table. */
  method MatchTable(path: bytes, table: seq<TableEntry>) returns (matches: set<nat>)
    requires |path| == PATHFRAGLEN && forall i :: 0 <= i < |table| ==> table[i].Valid()
    ensures forall i: nat :: i in matches <==>
      i < |table| && table[i].Hits(path)
  {
    matches := {};
    for i := 0 to |table|
      invariant forall j: nat :: j in matches <==>
        j < i && table[j].Hits(path)
    {
      var hit := StartsWith(table[i].slice, path, table[i].len);
      if hit {
        matches := matches + {i};
      }
    }
  }

  /**
    From the entry probe to the exit probe: which entries of the table the recorded path is counted under. For a path
    the walk resolves, they are the configured entries the whole absolute path starts with.
   */
  method MatchingPrefixes(resolver: Resolver, v: Vfs, dentry: Dentry, mount: Mount, table: seq<TableEntry>)
    returns (matches: set<nat>)
    requires resolver.Valid() && resolver.frag[..] == Fragment([])
    requires forall i :: 0 <= i < |table| ==> table[i].Valid()
    modifies resolver.ring, resolver.frag
    ensures resolver.Valid() && resolver.frag[..] == Fragment([])
    ensures forall i :: i in matches ==> i < |table| && 1 <= table[i].len <= PATHFRAGLEN
    ensures forall names, i |
              Reachable(v, dentry, mount, names)
              && 0 <= i < |table| && table[i].Configured() ::
              i in matches <==> table[i].slice[..table[i].len] <= AbsolutePath(names)
  {
    var path := resolver.TryEntry(v, dentry, mount);
    hide Within, Fragment, AbsolutePath;
    matches := MatchTable(path, table);
    forall names, i |
      Reachable(v, dentry, mount, names)
      && 0 <= i < |table| && table[i].Configured()
      ensures i in matches <==> table[i].slice[..table[i].len] <= AbsolutePath(names)
    {
      var prefix := table[i].slice[..table[i].len];
      assert path[..|prefix|] == prefix <==> prefix <= AbsolutePath(names);
    }
  }

  /** A path the walk can reach has its fragment determined by what the ring keeps. */
  lemma {:induction false} PathFound(v: Vfs, d: Dentry, m: Mount, names: seq<bytes>)
    requires Reachable(v, d, m, names)
    ensures WalkOf(v, d, m) == Walk(names, true)
    ensures var cs := CutAll(Kept(names)); Fragment(Text(Lead(true), cs, |cs|)) == Fragment(AbsolutePath(names))
  {
    WalkFinds(v, d, m, MAX_PARENT_LOOP, 0, names);
    AssembledPath(CutAll(Kept(names)));
    KeptNamesSuffice(names);
  }

  lemma {:induction false} FullFragment(lead: bytes, cs: seq<bytes>, i: nat)
    requires i <= |cs| && |Text(lead, cs, i)| >= PATHFRAGLEN
    ensures Fragment(Text(lead, cs, i)) == Fragment(Text(lead, cs, |cs|))
  {
    BodyGrows(cs, i, |cs|);
    assert Text(lead, cs, i)[..PATHFRAGLEN] == Text(lead, cs, |cs|)[..PATHFRAGLEN];
  }
}
