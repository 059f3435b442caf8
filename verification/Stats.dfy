/**
  Latency statistics per path prefix. Exit probes on any number of CPUs fold samples under a lock; whether to
  publish is decided before the lock is taken.
 */
module Stats {
  import opened Wire

  const TWO64: nat := U64_MAX + 1
  const AGG_INTERVAL: nat := 1_000_000_000

  type u64 = x: int | 0 <= x <= U64_MAX

  datatype Sample = Sample(lat: u64, size: u64)

  /** The counters of `FsLatencyStats`; additions wrap. */
  datatype Stats = Stats(min: u64, max: u64, totalLat: u64, totalBytes: u64, count: u64, lastPublish: u64)

  function Updated(s: Stats, x: Sample): Stats {
    s.(min := if x.lat < s.min || s.min == 0 then x.lat else s.min,
       max := if x.lat > s.max || s.max == 0 then x.lat else s.max,
       count := (s.count + 1) % TWO64,
       totalLat := (s.totalLat + x.lat) % TWO64,
       totalBytes := (s.totalBytes + x.size) % TWO64)
  }

  function Cleared(now: u64): Stats {
    Stats(U64_MAX, 0, 0, 0, 0, now)
  }

  /** A window starts from a zeroed table entry or from cleared counters. */
  predicate Fresh(s: Stats) {
    (s.min == 0 || s.min == U64_MAX) && s.max == 0 && s.totalLat == 0 && s.totalBytes == 0 && s.count == 0
  }

  class PrefixStats {
    var min: u64
    var max: u64
    var totalLat: u64
    var totalBytes: u64
    var count: u64
    var lastPublish: u64

    function Value(): Stats
      reads this
    {
      Stats(min, max, totalLat, totalBytes, count, lastPublish)
    }

    method Update(latency: u64, size: u64)
      modifies this
      ensures Value() == Updated(old(Value()), Sample(latency, size))
    {
      if latency < min || min == 0 {
        min := latency;
      }
      if latency > max || max == 0 {
        max := latency;
      }
      count := (count + 1) % TWO64;
      totalLat := (totalLat + latency) % TWO64;
      totalBytes := (totalBytes + size) % TWO64;
    }

    method Clear(now: u64)
      modifies this
      ensures Value() == Cleared(now) && Fresh(Value())
    {
      lastPublish, min, max := now, U64_MAX, 0;
      totalLat, totalBytes, count := 0, 0, 0;
    }

    /** What an exit probe does while it holds the lock: fold the sample, and when publishing take the window away. */
    method Locked(x: Sample, publish: bool, now: u64) returns (snapshot: Option<Stats>)
      modifies this
      ensures snapshot == if publish then Some(Updated(old(Value()), x)) else None
      ensures Value() == if publish then Cleared(now) else Updated(old(Value()), x)
    {
      Update(x.lat, x.size);
      if publish {
        snapshot := Some(Value());
        Clear(now);
      } else {
        snapshot := None;
      }
    }
  }

  // ----- what a window of samples adds up to -----

  function Fold(s: Stats, w: seq<Sample>): Stats {
    if w == [] then s else Updated(Fold(s, w[..|w| - 1]), w[|w| - 1])
  }

  function SumLat(w: seq<Sample>): nat {
    if w == [] then 0 else SumLat(w[..|w| - 1]) + w[|w| - 1].lat
  }

  function SumBytes(w: seq<Sample>): nat {
    if w == [] then 0 else SumBytes(w[..|w| - 1]) + w[|w| - 1].size
  }

  predicate IsMin(m: nat, w: seq<Sample>) {
    (exists i :: 0 <= i < |w| && w[i].lat == m) && forall i :: 0 <= i < |w| ==> m <= w[i].lat
  }

  predicate IsMax(m: nat, w: seq<Sample>) {
    (exists i :: 0 <= i < |w| && w[i].lat == m) && forall i :: 0 <= i < |w| ==> w[i].lat <= m
  }

  predicate Positive(w: seq<Sample>) {
    forall i :: 0 <= i < |w| ==> w[i].lat > 0
  }

  lemma {:induction false} AddMod(a: nat, b: nat)
    ensures (a % TWO64 + b) % TWO64 == (a + b) % TWO64
  {
  }

  /** Count and totals are the window's, modulo 2^64; the maximum is the true one. */
  lemma {:induction false} FoldTotals(s: Stats, w: seq<Sample>)
    requires Fresh(s)
    ensures var f := Fold(s, w);
            f.count == |w| % TWO64 && f.totalLat == SumLat(w) % TWO64 && f.totalBytes == SumBytes(w) % TWO64
            && f.lastPublish == s.lastPublish
    ensures w != [] ==> IsMax(Fold(s, w).max, w)
    ensures w == [] ==> Fold(s, w).max == 0
  {
    if w != [] {
      var v, x := w[..|w| - 1], w[|w| - 1];
      FoldTotals(s, v);
      AddMod(|v|, 1);
      AddMod(SumLat(v), x.lat);
      AddMod(SumBytes(v), x.size);
      if v != [] && Fold(s, w).max != x.lat {
        var i :| 0 <= i < |v| && v[i].lat == Fold(s, v).max;
        assert w[i].lat == Fold(s, w).max;
      }
    }
  }

  /**
    The minimum is the true one exactly when no zero latency was folded, or the last one folded was zero:
    a zero reads as "no minimum yet" and is forgotten at the next sample.
   */
  lemma {:induction false} FoldMin(s: Stats, w: seq<Sample>)
    requires Fresh(s) && w != []
    ensures IsMin(Fold(s, w).min, w) <==> Positive(w) || w[|w| - 1].lat == 0
    ensures Fold(s, w).min == 0 <==> w[|w| - 1].lat == 0
  {
    var v, x := w[..|w| - 1], w[|w| - 1];
    if v == [] {
      assert w == [x] && w[0] == x;
      assert Fold(s, v) == s;
    } else {
      FoldMin(s, v);
      MinStep(s, v, x);
      assert w == v + [x];
    }
  }

  lemma {:induction false} MinStep(s: Stats, v: seq<Sample>, x: Sample)
    requires v != [] && Fresh(s)
    requires IsMin(Fold(s, v).min, v) <==> Positive(v) || v[|v| - 1].lat == 0
    requires Fold(s, v).min == 0 <==> v[|v| - 1].lat == 0
    ensures var m := Updated(Fold(s, v), x).min;
            (IsMin(m, v + [x]) <==> Positive(v + [x]) || x.lat == 0) && (m == 0 <==> x.lat == 0)
  {
    var w, m := v + [x], Updated(Fold(s, v), x).min;
    assert w[|v|] == x && forall i :: 0 <= i < |v| ==> w[i] == v[i];
    if Positive(w) {
      assert Positive(v) by {
        forall i | 0 <= i < |v| ensures v[i].lat > 0 {
          assert w[i].lat > 0;
        }
      }
      if m != x.lat {
        var i :| 0 <= i < |v| && v[i].lat == m;
        assert w[i].lat == m;
      }
    } else if x.lat != 0 {
      var z :| 0 <= z < |w| && w[z].lat == 0;
      assert !IsMin(m, w);
    }
  }

  /** A zero latency followed by a positive one: the reported minimum is 7, the true one is 0. */
  lemma {:induction false} ZeroLatencyIsForgotten()
    ensures var w := [Sample(0, 1), Sample(7, 1)];
            Fold(Cleared(0), w).min == 7 && !IsMin(7, w)
  {
    var w := [Sample(0, 1), Sample(7, 1)];
    assert w[..1] == [Sample(0, 1)] && w[..1][..0] == [];
    assert Fold(Cleared(0), w[..1]).min == 0;
    assert w[0].lat == 0;
  }

  lemma {:induction false} Bounds(w: seq<Sample>, lo: nat, hi: nat)
    requires forall i :: 0 <= i < |w| ==> lo <= w[i].lat <= hi
    ensures lo * |w| <= SumLat(w) <= hi * |w|
  {
    if w != [] {
      Bounds(w[..|w| - 1], lo, hi);
      assert lo * |w| == lo * (|w| - 1) + lo && hi * |w| == hi * (|w| - 1) + hi;
    }
  }

  /** For positive latencies whose total has not wrapped, the counters of a window bound its total. */
  lemma {:induction false} WindowBounds(s: Stats, w: seq<Sample>)
    requires Fresh(s) && w != [] && Positive(w) && SumLat(w) < TWO64 && |w| < TWO64
    ensures var f := Fold(s, w);
            IsMin(f.min, w) && IsMax(f.max, w) && f.count == |w| && f.totalLat == SumLat(w)
            && f.min * f.count <= f.totalLat <= f.max * f.count
  {
    hide Fold, SumLat, SumBytes;
    FoldTotals(s, w);
    FoldMin(s, w);
    Bounds(w, Fold(s, w).min, Fold(s, w).max);
  }
}
