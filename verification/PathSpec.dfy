/** Absolute paths in a tree of dentries and mounts, and how much of one survives in a 32-byte fragment. */
module PathSpec {
  import opened Wire

  const PATHFRAGLEN: nat := 32
  const NUM_COMP: nat := 16
  const MAX_PARENT: nat := 32
  const MAX_PARENT_LOOP: nat := 64
  const SLASH: byte := 0x2f

  type Dentry = nat
  type Mount = nat

  /** The kernel structures the walk reads, fixed for its duration. */
  datatype Vfs = Vfs(
    parent: Dentry -> Dentry,
    name: Dentry -> bytes,
    mntRoot: Mount -> Dentry,
    mntParent: Mount -> Mount,
    mountpoint: Mount -> Dentry,
    rootDentry: Dentry,
    rootMount: Mount)

  /** The root directory of the process. */
  predicate IsRoot(v: Vfs, d: Dentry, m: Mount) {
    d == v.rootDentry && m == v.rootMount
  }

  /** The root of a mount that is itself mounted somewhere: the path goes on at its mount point. */
  predicate IsMountRoot(v: Vfs, d: Dentry, m: Mount) {
    d == v.mntRoot(m) && m != v.mntParent(m)
  }

  /** `names` are the names from below `top` down to `d`, all inside mount `m`, with nothing on the way that ends it. */
  ghost predicate Leads(v: Vfs, m: Mount, top: Dentry, d: Dentry, names: seq<bytes>)
    decreases |names|
  {
    if names == [] then d == top
    else
      var k := |names| - 1;
      !IsRoot(v, d, m) && !IsMountRoot(v, d, m) && d != v.parent(d)
      && names[k] == v.name(d) && Leads(v, m, top, v.parent(d), names[..k])
  }

  /**
    `names`, root first, are the absolute path of (d, m) through `mounts` mount points: the names in mount `m` up to
    the root of the process or of everything, or else up to the root of the mount and behind the path of the mount
    point in the mount above.
   */
  ghost predicate IsPath(v: Vfs, d: Dentry, m: Mount, names: seq<bytes>, mounts: nat)
    decreases mounts, 1
  {
    if mounts == 0 then
      exists top :: Leads(v, m, top, d, names)
        && (IsRoot(v, top, m) || (top == v.parent(top) && !IsMountRoot(v, top, m)))
    else exists k: nat :: k <= |names| && IsPathVia(v, d, m, names, mounts, k)
  }

  /** The first `k` names are those of the mount point, the others lead from the root of the mount down to `d`. */
  ghost predicate IsPathVia(v: Vfs, d: Dentry, m: Mount, names: seq<bytes>, mounts: nat, k: nat)
    requires mounts > 0 && k <= |names|
    decreases mounts, 0
  {
    m != v.mntParent(m) && !IsRoot(v, v.mntRoot(m), m) && Leads(v, m, v.mntRoot(m), d, names[k..])
    && IsPath(v, v.mountpoint(m), v.mntParent(m), names[..k], mounts - 1)
  }

  lemma {:induction false} PathAtTop(v: Vfs, d: Dentry, m: Mount, names: seq<bytes>, mounts: nat)
    requires IsRoot(v, d, m) || (d == v.parent(d) && !IsMountRoot(v, d, m))
    ensures IsPath(v, d, m, names, mounts) <==> names == [] && mounts == 0
  {
    if names == [] && mounts == 0 {
      assert Leads(v, m, d, d, names);
    }
    if mounts > 0 {
      forall k: nat | k <= |names| ensures !IsPathVia(v, d, m, names, mounts, k) {
      }
    }
  }

  lemma {:induction false} PathAtMountRoot(v: Vfs, d: Dentry, m: Mount, names: seq<bytes>, mounts: nat)
    requires IsMountRoot(v, d, m) && !IsRoot(v, d, m)
    ensures IsPath(v, d, m, names, mounts)
       <==> mounts > 0 && IsPath(v, v.mountpoint(m), v.mntParent(m), names, mounts - 1)
  {
    assert names[..|names|] == names && names[|names|..] == [];
    if mounts > 0 {
      forall k: nat | k < |names| ensures !IsPathVia(v, d, m, names, mounts, k) {
        assert names[k..] != [];
      }
      assert IsPathVia(v, d, m, names, mounts, |names|)
        == IsPath(v, v.mountpoint(m), v.mntParent(m), names, mounts - 1);
    }
  }

  lemma {:induction false} PathBelow(v: Vfs, d: Dentry, m: Mount, names: seq<bytes>, mounts: nat)
    requires !IsRoot(v, d, m) && !IsMountRoot(v, d, m) && d != v.parent(d)
    ensures IsPath(v, d, m, names, mounts)
       <==> names != [] && names[|names| - 1] == v.name(d) && IsPath(v, v.parent(d), m, names[..|names| - 1], mounts)
  {
    if names != [] {
      var n, init := |names| - 1, names[..|names| - 1];
      if mounts == 0 {
        forall top ensures Leads(v, m, top, d, names)
          <==> names[n] == v.name(d) && Leads(v, m, top, v.parent(d), init) {
        }
      } else {
        forall k: nat | k <= |names|
          ensures IsPathVia(v, d, m, names, mounts, k)
             <==> k <= n && names[n] == v.name(d) && IsPathVia(v, v.parent(d), m, init, mounts, k)
        {
          ViaBelow(v, d, m, names, mounts, k);
        }
      }
    } else if mounts > 0 {
      assert !IsPathVia(v, d, m, names, mounts, 0);
    }
  }

  lemma {:induction false} ViaBelow(v: Vfs, d: Dentry, m: Mount, names: seq<bytes>, mounts: nat, k: nat)
    requires !IsRoot(v, d, m) && !IsMountRoot(v, d, m) && d != v.parent(d) && names != [] && mounts > 0 && k <= |names|
    ensures var n := |names| - 1;
            IsPathVia(v, d, m, names, mounts, k)
            <==> k <= n && names[n] == v.name(d) && IsPathVia(v, v.parent(d), m, names[..n], mounts, k)
  {
    hide IsPath;
    var n := |names| - 1;
    if k <= n {
      assert names[k..][..n - k] == names[..n][k..] && names[..n][..k] == names[..k];
    } else {
      assert names[k..] == [];
    }
  }

  /** A file inside a mounted file system has the path of the mount point, followed by its names inside. */
  lemma {:induction false} PathThroughMount(
    v: Vfs, d: Dentry, m: Mount, outer: seq<bytes>, inner: seq<bytes>, mounts: nat)
    requires m != v.mntParent(m) && !IsRoot(v, v.mntRoot(m), m) && Leads(v, m, v.mntRoot(m), d, inner)
    ensures IsPath(v, d, m, outer + inner, mounts + 1) <==> IsPath(v, v.mountpoint(m), v.mntParent(m), outer, mounts)
    decreases |inner|
  {
    if inner == [] {
      assert outer + inner == outer;
      PathAtMountRoot(v, d, m, outer, mounts + 1);
    } else {
      var n := |inner| - 1;
      PathBelow(v, d, m, outer + inner, mounts + 1);
      assert (outer + inner)[..|outer + inner| - 1] == outer + inner[..n];
      PathThroughMount(v, v.parent(d), m, outer, inner[..n], mounts);
    }
  }

  /** A file in the mount of the process root, below it, has the names from the root down to it. */
  lemma {:induction false} PathFromRoot(v: Vfs, d: Dentry, names: seq<bytes>, inner: seq<bytes>)
    requires Leads(v, v.rootMount, v.rootDentry, d, inner)
    ensures IsPath(v, d, v.rootMount, names, 0) <==> names == inner
    decreases |inner|
  {
    if inner == [] {
      PathAtTop(v, d, v.rootMount, names, 0);
    } else {
      var n := |inner| - 1;
      PathBelow(v, d, v.rootMount, names, 0);
      if names != [] {
        PathFromRoot(v, v.parent(d), names[..|names| - 1], inner[..n]);
        assert names == names[..|names| - 1] + [names[|names| - 1]] && inner == inner[..n] + [inner[n]];
      }
    }
  }

  /** Each name behind a slash. */
  function Slashed(names: seq<bytes>): bytes {
    if names == [] then [] else Slashed(names[..|names| - 1]) + [SLASH] + names[|names| - 1]
  }

  function AbsolutePath(names: seq<bytes>): bytes {
    if names == [] then [SLASH] else Slashed(names)
  }

  /** The file `a` in a file system mounted at `/m`. */
  lemma {:induction false} MountedExample(v: Vfs)
    requires v.rootDentry == 0 && v.rootMount == 0 && v.mntRoot(0) == 0 && v.mntParent(0) == 0 && v.parent(0) == 0
    requires v.mntRoot(1) == 10 && v.mntParent(1) == 0 && v.mountpoint(1) == 1
    requires v.parent(1) == 0 && v.name(1) == [0x6d] && v.parent(11) == 10 && v.name(11) == [0x61]
    ensures IsPath(v, 11, 1, [[0x6d], [0x61]], 1) && AbsolutePath([[0x6d], [0x61]]) == [0x2f, 0x6d, 0x2f, 0x61]
  {
    assert [[0x61]][..0] == [] && Leads(v, 1, 10, 11, [[0x61]]);
    assert [[0x6d]][..0] == [] && Leads(v, 0, 0, 1, [[0x6d]]);
    PathFromRoot(v, 1, [[0x6d]], [[0x6d]]);
    PathThroughMount(v, 11, 1, [[0x6d]], [[0x61]], 0);
    assert [[0x6d]] + [[0x61]] == [[0x6d], [0x61]];
    var names: seq<bytes> := [[0x6d], [0x61]];
    assert names[..1] == [[0x6d]] && names[..1][..0] == [];
    assert Slashed(names[..1]) == [0x2f, 0x6d];
  }

  predicate NonEmptyNames(names: seq<bytes>) {
    forall i :: 0 <= i < |names| ==> names[i] != []
  }

  /** The first 32 bytes, filled up with zeros. */
  function Fragment(path: bytes): (f: bytes)
    ensures |f| == PATHFRAGLEN
  {
    if |path| >= PATHFRAGLEN then path[..PATHFRAGLEN] else path + seq(PATHFRAGLEN - |path|, _ => 0)
  }

  /** What a 32-byte slot keeps of a name: 31 bytes before the terminating zero. */
  function Cut(name: bytes): bytes {
    if |name| < PATHFRAGLEN then name else name[..PATHFRAGLEN - 1]
  }

  function CutAll(names: seq<bytes>): (r: seq<bytes>)
    ensures |r| == |names| && forall i :: 0 <= i < |r| ==> r[i] == Cut(names[i])
  {
    seq(|names|, i requires 0 <= i < |names| => Cut(names[i]))
  }

  /** The names the ring still holds at the end of a walk: the sixteen nearest the root. */
  function Kept(names: seq<bytes>): seq<bytes> {
    if |names| <= NUM_COMP then names else names[..NUM_COMP]
  }

  /** Equal, or alike in the first 32 bytes. */
  predicate Alike(a: bytes, b: bytes) {
    a == b || (|a| >= PATHFRAGLEN && |b| >= PATHFRAGLEN && a[..PATHFRAGLEN] == b[..PATHFRAGLEN])
  }

  lemma {:induction false} AlikeFragments(a: bytes, b: bytes)
    requires Alike(a, b)
    ensures Fragment(a) == Fragment(b)
  {
  }

  lemma {:induction false} AlikeExtends(a: bytes, b: bytes, x: bytes, y: bytes)
    requires Alike(a, b)
    requires x == y || |a| >= PATHFRAGLEN
      || (|x| >= PATHFRAGLEN && |y| >= PATHFRAGLEN && x[..PATHFRAGLEN] == y[..PATHFRAGLEN])
    ensures Alike(a + x, b + y)
  {
    if |a| >= PATHFRAGLEN && |b| >= PATHFRAGLEN {
      assert (a + x)[..PATHFRAGLEN] == a[..PATHFRAGLEN] && (b + y)[..PATHFRAGLEN] == b[..PATHFRAGLEN];
    } else if x != y {
      assert a == b;
      var k := PATHFRAGLEN - |a|;
      assert x[..k] == x[..PATHFRAGLEN][..k] == y[..PATHFRAGLEN][..k] == y[..k];
      assert (a + x)[..PATHFRAGLEN] == a + x[..k];
      assert (b + y)[..PATHFRAGLEN] == b + y[..k];
    }
  }

  lemma {:induction false} CutNameAlike(a: bytes, b: bytes, name: bytes)
    requires Alike(a, b)
    ensures Alike(a + [SLASH] + name, b + [SLASH] + Cut(name))
  {
    var x, y := [SLASH] + name, [SLASH] + Cut(name);
    if |name| >= PATHFRAGLEN {
      assert x[..PATHFRAGLEN] == [SLASH] + name[..PATHFRAGLEN - 1] == y[..PATHFRAGLEN];
    }
    AlikeExtends(a, b, x, y);
    assert a + [SLASH] + name == a + x && b + [SLASH] + Cut(name) == b + y;
  }

  /** Cutting every name to 31 bytes does not show in the first 32 bytes of the path. */
  lemma {:induction false} CutNamesAlike(names: seq<bytes>)
    ensures Alike(Slashed(names), Slashed(CutAll(names)))
  {
    if names == [] {
      assert CutAll(names) == [];
    } else {
      hide Alike, Cut;
      var k := |names| - 1;
      CutNamesAlike(names[..k]);
      assert CutAll(names)[..k] == CutAll(names[..k]);
      CutNameAlike(Slashed(names[..k]), Slashed(CutAll(names[..k])), names[k]);
    }
  }

  lemma {:induction false} SlashedLength(names: seq<bytes>)
    requires NonEmptyNames(names)
    ensures |Slashed(names)| >= 2 * |names|
  {
    if names != [] {
      SlashedLength(names[..|names| - 1]);
    }
  }

  lemma {:induction false} SlashedPrefix(names: seq<bytes>, k: nat)
    requires k <= |names|
    ensures Slashed(names[..k]) <= Slashed(names)
  {
    if k == |names| {
      assert names[..k] == names;
    } else {
      SlashedPrefix(names[..|names| - 1], k);
      assert names[..|names| - 1][..k] == names[..k];
    }
  }

  /** Sixteen names, each cut to 31 bytes, determine the first 32 bytes of the whole path. */
  lemma {:induction false} KeptNamesSuffice(names: seq<bytes>)
    requires NonEmptyNames(names)
    ensures Fragment(AbsolutePath(CutAll(Kept(names)))) == Fragment(AbsolutePath(names))
  {
    var kept := Kept(names);
    CutNamesAlike(kept);
    if |names| > NUM_COMP {
      SlashedLength(kept);
      SlashedPrefix(names, NUM_COMP);
      assert Slashed(names)[..PATHFRAGLEN] == Slashed(kept)[..PATHFRAGLEN];
    }
    AlikeFragments(AbsolutePath(CutAll(kept)), AbsolutePath(names));
  }

  /** Matching a zero-free prefix of at most 32 bytes against the fragment is matching it against the whole path. */
  lemma {:induction false} FragmentDecidesPrefix(prefix: bytes, path: bytes)
    requires 1 <= |prefix| <= PATHFRAGLEN && 0 !in prefix
    ensures Fragment(path)[..|prefix|] == prefix <==> prefix <= path
  {
    var f, n := Fragment(path), |prefix|;
    if n <= |path| {
      assert f[..n] == path[..n];
    } else {
      assert f[|path|] == 0;
      assert f[..n][|path|] != prefix[|path|];
    }
  }
}
