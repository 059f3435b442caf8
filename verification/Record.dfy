/** The record an exit probe publishes: a nested map of indefinite length in a reserved block of 1024 bytes. */
module Record {
  import opened Wire
  import opened Items
  import opened Parse
  import opened Encoding
  import St = Stats
  import PathSpec

  const BUFSIZE: nat := 1024

  /** ASCII text as bytes. */
  function Ascii(s: string): (b: bytes)
    requires forall i :: 0 <= i < |s| ==> s[i] as int < 0x80
    ensures |b| == |s| && forall i :: 0 <= i < |b| ==> b[i] == s[i] as int < 0x80
  {
    seq(|s|, i requires 0 <= i < |s| => s[i] as int)
  }

  lemma {:induction false} AsciiIsUtf8(b: bytes)
    requires forall i :: 0 <= i < |b| ==> b[i] < 0x80
    ensures Utf8(b)
  {
    if b != [] {
      AsciiIsUtf8(b[1..]);
    }
  }

  datatype Event = Event(id: bytes, monotonic: St.u64, sequence: St.u64)

  /** The prefix is stored in a slice of fixed size beside its length. */
  datatype Snapshot = Snapshot(pathPrefix: bytes, pathlen: nat, stats: St.Stats) {
    function Prefix(): (p: bytes)
      ensures p <= pathPrefix && (|p| == pathlen || (|p| == |pathPrefix| && |p| < pathlen))
    {
      pathPrefix[..if pathlen < |pathPrefix| then pathlen else |pathPrefix|]
    }
  }

  /** `str_noncanonical` and `u64_noncanonical` write these. */
  function TextItem(b: bytes): Item { Str(true, Chunk(W8, b)) }
  function U64Item(n: nat): Item { Num(false, W8, n) }

  function Entry(key: string, v: Item): (e: seq<Item>)
    requires forall i :: 0 <= i < |key| ==> key[i] as int < 0x80
    ensures |e| == 2
  {
    [TextItem(Ascii(key)), v]
  }

  function Before(ev: Event, opname: bytes, unit: bytes): seq<Item> {
    Entry("id", TextItem(ev.id)) + Entry("timestamp_monotonic", U64Item(ev.monotonic))
    + Entry("opname", TextItem(opname)) + Entry("sequence", U64Item(ev.sequence))
    + Entry("unit", TextItem(unit)) + [TextItem(Ascii("metrics"))]
  }

  function Metrics(s: St.Stats): seq<Item> {
    Entry("min_latency", U64Item(s.min)) + Entry("max_latency", U64Item(s.max))
    + Entry("total_latency", U64Item(s.totalLat)) + Entry("total_bytes", U64Item(s.totalBytes))
    + Entry("count_samples", U64Item(s.count)) + Entry("aggregation_time", U64Item(St.AGG_INTERVAL))
  }

  function Behind(prefix: bytes): seq<Item> {
    Entry("path_prefix", TextItem(prefix))
  }

  function RecordItem(ev: Event, snap: Snapshot, opname: bytes, unit: bytes): Item {
    CollIndef(true, Before(ev, opname, unit) + [CollIndef(true, Metrics(snap.stats))] + Behind(snap.Prefix()))
  }

  // ----- what a reader finds in the record -----

  predicate IsText(x: Item, b: bytes) { x.Str? && x.text && x.chunk.data == b }
  predicate IsNumber(x: Item, n: nat) { x.Num? && !x.negative && x.n == n }

  /** The item is this text, character by character. */
  predicate IsKey(x: Item, key: string) {
    x.Str? && x.text && |x.chunk.data| == |key| && forall i :: 0 <= i < |key| ==> x.chunk.data[i] == key[i] as int
  }

  /** All values that stand behind this key, among keys and values in turn. */
  function Under(items: seq<Item>, key: string): seq<Item> {
    if |items| < 2 then []
    else (if IsKey(items[0], key) then [items[1]] else []) + Under(items[2..], key)
  }

  /** The key is there exactly once, with this text. */
  predicate TextField(items: seq<Item>, key: string, b: bytes) {
    var vs := Under(items, key);
    |vs| == 1 && IsText(vs[0], b)
  }

  /** The key is there exactly once, with this number. */
  predicate NumberField(items: seq<Item>, key: string, n: nat) {
    var vs := Under(items, key);
    |vs| == 1 && IsNumber(vs[0], n)
  }

  /** The record of a snapshot as its consumer reads it: seven keys, and six counters under one of them. */
  predicate Publishes(x: Item, ev: Event, snap: Snapshot, opname: bytes, unit: bytes) {
    && x.CollIndef? && x.isMap && |x.items| == 14
    && TextField(x.items, "id", ev.id)
    && NumberField(x.items, "timestamp_monotonic", ev.monotonic)
    && TextField(x.items, "opname", opname)
    && NumberField(x.items, "sequence", ev.sequence)
    && TextField(x.items, "unit", unit)
    && TextField(x.items, "path_prefix", snap.Prefix())
    && var vs := Under(x.items, "metrics");
    |vs| == 1 && PublishesCounters(vs[0], snap.stats)
  }

  predicate PublishesCounters(x: Item, s: St.Stats) {
    && x.CollIndef? && x.isMap && |x.items| == 12
    && NumberField(x.items, "min_latency", s.min)
    && NumberField(x.items, "max_latency", s.max)
    && NumberField(x.items, "total_latency", s.totalLat)
    && NumberField(x.items, "total_bytes", s.totalBytes)
    && NumberField(x.items, "count_samples", s.count)
    && NumberField(x.items, "aggregation_time", 1_000_000_000)
  }

  function Pick(hit: bool, v: Item): seq<Item> {
    if hit then [v] else []
  }

  predicate IsAscii(s: string) { forall i :: 0 <= i < |s| ==> s[i] as int < 0x80 }

  lemma {:induction false} UnderEntry(key: string, v: Item, rest: seq<Item>, k: string)
    requires IsAscii(key)
    ensures Under(Entry(key, v) + rest, k) == Pick(k == key, v) + Under(rest, k)
  {
    var x := TextItem(Ascii(key));
    assert IsKey(x, k) <==> k == key by {
      if IsKey(x, k) {
        forall i | 0 <= i < |k| ensures k[i] == key[i] {
          assert x.chunk.data[i] == k[i] as int;
        }
      }
    }
    assert (Entry(key, v) + rest)[2..] == rest;
  }

  lemma {:induction false} UnderMetrics(s: St.Stats, k: string)
    ensures Under(Metrics(s), k)
         == Pick(k == "min_latency", U64Item(s.min)) + (Pick(k == "max_latency", U64Item(s.max))
          + (Pick(k == "total_latency", U64Item(s.totalLat)) + (Pick(k == "total_bytes", U64Item(s.totalBytes))
          + (Pick(k == "count_samples", U64Item(s.count)) + Pick(k == "aggregation_time", U64Item(St.AGG_INTERVAL))))))
  {
    hide Entry, Under;
    var e1, e2 := Entry("min_latency", U64Item(s.min)), Entry("max_latency", U64Item(s.max));
    var e3, e4 := Entry("total_latency", U64Item(s.totalLat)), Entry("total_bytes", U64Item(s.totalBytes));
    var e5, e6 := Entry("count_samples", U64Item(s.count)), Entry("aggregation_time", U64Item(St.AGG_INTERVAL));
    InTurn(e1, e2, e3, e4, e5, e6);
    UnderEntry("min_latency", U64Item(s.min), e2 + (e3 + (e4 + (e5 + (e6 + [])))), k);
    UnderEntry("max_latency", U64Item(s.max), e3 + (e4 + (e5 + (e6 + []))), k);
    UnderEntry("total_latency", U64Item(s.totalLat), e4 + (e5 + (e6 + [])), k);
    UnderEntry("total_bytes", U64Item(s.totalBytes), e5 + (e6 + []), k);
    UnderEntry("count_samples", U64Item(s.count), e6 + [], k);
    UnderEntry("aggregation_time", U64Item(St.AGG_INTERVAL), [], k);
    NothingUnder(k);
  }

  lemma {:induction false} NothingUnder(key: string)
    ensures Under([], key) == []
  {
  }

  lemma {:induction false} InTurn(
    a: seq<Item>, b: seq<Item>, c: seq<Item>, d: seq<Item>, e: seq<Item>, f: seq<Item>)
    ensures a + b + c + d + e + f == a + (b + (c + (d + (e + (f + [])))))
  {
  }

  lemma {:induction false} UnderRecord(ev: Event, snap: Snapshot, opname: bytes, unit: bytes, k: string)
    ensures Under(RecordItem(ev, snap, opname, unit).items, k)
         == Pick(k == "id", TextItem(ev.id)) + (Pick(k == "timestamp_monotonic", U64Item(ev.monotonic))
          + (Pick(k == "opname", TextItem(opname)) + (Pick(k == "sequence", U64Item(ev.sequence))
          + (Pick(k == "unit", TextItem(unit)) + (Pick(k == "metrics", CollIndef(true, Metrics(snap.stats)))
          + Pick(k == "path_prefix", TextItem(snap.Prefix())))))))
  {
    hide Entry, Under, Metrics;
    var e1, e2 := Entry("id", TextItem(ev.id)), Entry("timestamp_monotonic", U64Item(ev.monotonic));
    var e3, e4 := Entry("opname", TextItem(opname)), Entry("sequence", U64Item(ev.sequence));
    var e5, inner := Entry("unit", TextItem(unit)), CollIndef(true, Metrics(snap.stats));
    var e6, e7 := Entry("metrics", inner), Behind(snap.Prefix());
    RecordInTurn(ev, snap, opname, unit);
    UnderEntry("id", TextItem(ev.id), e2 + (e3 + (e4 + (e5 + (e6 + (e7 + []))))), k);
    UnderEntry("timestamp_monotonic", U64Item(ev.monotonic), e3 + (e4 + (e5 + (e6 + (e7 + [])))), k);
    UnderEntry("opname", TextItem(opname), e4 + (e5 + (e6 + (e7 + []))), k);
    UnderEntry("sequence", U64Item(ev.sequence), e5 + (e6 + (e7 + [])), k);
    UnderEntry("unit", TextItem(unit), e6 + (e7 + []), k);
    UnderEntry("metrics", inner, e7 + [], k);
    UnderEntry("path_prefix", TextItem(snap.Prefix()), [], k);
    NothingUnder(k);
  }

  lemma {:induction false} RecordInTurn(ev: Event, snap: Snapshot, opname: bytes, unit: bytes)
    ensures RecordItem(ev, snap, opname, unit).items
         == Entry("id", TextItem(ev.id)) + (Entry("timestamp_monotonic", U64Item(ev.monotonic))
          + (Entry("opname", TextItem(opname)) + (Entry("sequence", U64Item(ev.sequence))
          + (Entry("unit", TextItem(unit)) + (Entry("metrics", CollIndef(true, Metrics(snap.stats)))
          + (Behind(snap.Prefix()) + []))))))
  {
    hide Metrics;
    var inner := CollIndef(true, Metrics(snap.stats));
    assert [TextItem(Ascii("metrics"))] + [inner] == Entry("metrics", inner);
    var key := [TextItem(Ascii("metrics"))];
    hide Entry;
    var a := Entry("id", TextItem(ev.id)) + Entry("timestamp_monotonic", U64Item(ev.monotonic))
      + Entry("opname", TextItem(opname)) + Entry("sequence", U64Item(ev.sequence)) + Entry("unit", TextItem(unit));
    Regroup(a, key, [inner]);
    InTurn(Entry("id", TextItem(ev.id)), Entry("timestamp_monotonic", U64Item(ev.monotonic)),
      Entry("opname", TextItem(opname)), Entry("sequence", U64Item(ev.sequence)), Entry("unit", TextItem(unit)),
      Entry("metrics", inner) + Behind(snap.Prefix()));
    Regroup(a, Entry("metrics", inner), Behind(snap.Prefix()));
    Regroup(Entry("metrics", inner), Behind(snap.Prefix()), []);
  }

  /** The keys of equal length differ in a character. */
  lemma {:induction false} KeysDiffer()
    ensures "min_latency" != "max_latency" && "min_latency" != "total_bytes" && "max_latency" != "total_bytes"
    ensures "total_latency" != "count_samples" && "path_prefix" != "min_latency"
  {
    assert "min_latency"[1] != "max_latency"[1];
    assert "min_latency"[0] != "total_bytes"[0] && "max_latency"[0] != "total_bytes"[0];
    assert "total_latency"[0] != "count_samples"[0];
    assert "path_prefix"[0] != "min_latency"[0];
  }

  lemma {:induction false} MetricsSize(s: St.Stats)
    ensures |Metrics(s)| == 12
  {
  }

  lemma {:induction false} LatenciesPublish(s: St.Stats)
    ensures NumberField(Metrics(s), "min_latency", s.min) && NumberField(Metrics(s), "max_latency", s.max)
    ensures NumberField(Metrics(s), "total_latency", s.totalLat)
  {
    hide Metrics, Under;
    KeysDiffer();
    UnderMetrics(s, "min_latency");
    UnderMetrics(s, "max_latency");
    UnderMetrics(s, "total_latency");
  }

  lemma {:induction false} CountsPublish(s: St.Stats)
    ensures NumberField(Metrics(s), "total_bytes", s.totalBytes) && NumberField(Metrics(s), "count_samples", s.count)
    ensures NumberField(Metrics(s), "aggregation_time", 1_000_000_000)
  {
    hide Metrics, Under;
    KeysDiffer();
    UnderMetrics(s, "total_bytes");
    UnderMetrics(s, "count_samples");
    UnderMetrics(s, "aggregation_time");
  }

  lemma {:induction false} MetricsPublish(s: St.Stats)
    ensures PublishesCounters(CollIndef(true, Metrics(s)), s)
  {
    hide Metrics, NumberField;
    MetricsSize(s);
    LatenciesPublish(s);
    CountsPublish(s);
  }

  /** The record says what the snapshot holds, each thing under its own key and once. */
  lemma {:induction false} RecordPublishes(ev: Event, snap: Snapshot, opname: bytes, unit: bytes)
    ensures Publishes(RecordItem(ev, snap, opname, unit), ev, snap, opname, unit)
  {
    RecordSize(ev, snap, opname, unit);
    MetricsPublish(snap.stats);
    hide RecordItem, Metrics, Under, PublishesCounters;
    UnderRecord(ev, snap, opname, unit, "id");
    UnderRecord(ev, snap, opname, unit, "timestamp_monotonic");
    UnderRecord(ev, snap, opname, unit, "opname");
    UnderRecord(ev, snap, opname, unit, "sequence");
    UnderRecord(ev, snap, opname, unit, "unit");
    UnderRecord(ev, snap, opname, unit, "path_prefix");
    UnderRecord(ev, snap, opname, unit, "metrics");
  }

  lemma {:induction false} RecordSize(ev: Event, snap: Snapshot, opname: bytes, unit: bytes)
    ensures var x := RecordItem(ev, snap, opname, unit); x.CollIndef? && x.isMap && |x.items| == 14
  {
    hide Metrics;
  }

  // ----- sizes -----

  /** Leaves of maximum width are valid, and take nine bytes of head each. */
  predicate Leaf(x: Item) {
    (x.Str? && x.text && x.chunk.w == W8 && |x.chunk.data| <= U64_MAX && Utf8(x.chunk.data))
    || (x.Num? && !x.negative && x.w == W8 && x.n <= U64_MAX)
  }

  function LeafLen(x: Item): nat {
    if x.Str? then 9 + |x.chunk.data| else 9
  }

  function LeafLens(xs: seq<Item>): nat {
    if xs == [] then 0 else LeafLens(xs[..|xs| - 1]) + LeafLen(xs[|xs| - 1])
  }

  predicate Leaves(xs: seq<Item>) {
    forall i :: 0 <= i < |xs| ==> Leaf(xs[i])
  }

  lemma {:induction false} LeafEncodes(x: Item)
    requires Leaf(x)
    ensures Valid(x) && Writable(x) && |Encode(x)| == LeafLen(x)
  {
    Pow256Values();
  }

  lemma {:induction false} LeavesEncode(xs: seq<Item>)
    requires Leaves(xs)
    ensures ValidAll(xs) && |EncodeAll(xs)| == LeafLens(xs)
    ensures forall i :: 0 <= i < |xs| ==> Writable(xs[i])
  {
    hide Leaf, Writable, Encode, Valid;
    if xs != [] {
      var k := |xs| - 1;
      LeavesEncode(xs[..k]);
      LeafEncodes(xs[k]);
      assert ValidAll([xs[k]]) && EncodeAll([xs[k]]) == Encode(xs[k]) + EncodeAll([]);
      EncodeAllConcat(xs[..k], [xs[k]]);
      assert xs == xs[..k] + [xs[k]];
      forall i | 0 <= i < |xs| ensures Writable(xs[i]) {
        if i < k {
          assert xs[i] == xs[..k][i];
        }
      }
    }
  }

  lemma {:induction false} LeafLensConcat(xs: seq<Item>, ys: seq<Item>)
    requires Leaves(xs) && Leaves(ys)
    ensures Leaves(xs + ys) && LeafLens(xs + ys) == LeafLens(xs) + LeafLens(ys)
  {
    if ys == [] {
      assert xs + ys == xs;
    } else {
      var k := |ys| - 1;
      LeafLensConcat(xs, ys[..k]);
      assert (xs + ys)[..|xs| + k] == xs + ys[..k];
    }
  }

  lemma {:induction false} TextEntry(key: string, b: bytes)
    requires |key| < 32 && |b| <= U64_MAX && Utf8(b)
    requires forall i :: 0 <= i < |key| ==> key[i] as int < 0x80
    ensures Leaves(Entry(key, TextItem(b))) && LeafLens(Entry(key, TextItem(b))) == 18 + |key| + |b|
  {
    AsciiIsUtf8(Ascii(key));
    assert Entry(key, TextItem(b))[..1] == [TextItem(Ascii(key))];
    assert LeafLens([TextItem(Ascii(key))]) == 9 + |key|;
  }

  lemma {:induction false} U64Entry(key: string, n: St.u64)
    requires |key| < 32 && forall i :: 0 <= i < |key| ==> key[i] as int < 0x80
    ensures Leaves(Entry(key, U64Item(n))) && LeafLens(Entry(key, U64Item(n))) == 18 + |key|
  {
    AsciiIsUtf8(Ascii(key));
    assert Entry(key, U64Item(n))[..1] == [TextItem(Ascii(key))];
    assert LeafLens([TextItem(Ascii(key))]) == 9 + |key|;
  }

  lemma {:induction false} TextKey(key: string)
    requires |key| < 32 && forall i :: 0 <= i < |key| ==> key[i] as int < 0x80
    ensures Leaves([TextItem(Ascii(key))]) && LeafLens([TextItem(Ascii(key))]) == 9 + |key|
  {
    AsciiIsUtf8(Ascii(key));
  }

  lemma {:induction false} BeforeLen(ev: Event, opname: bytes, unit: bytes)
    requires Publishable(ev.id) && Publishable(opname) && Publishable(unit)
    ensures Leaves(Before(ev, opname, unit)) && |Before(ev, opname, unit)| == 11
    ensures LeafLens(Before(ev, opname, unit)) == 145 + |ev.id| + |opname| + |unit|
  {
    hide Leaves, Entry, LeafLens, Ascii, Utf8;
    TextEntry("id", ev.id);
    U64Entry("timestamp_monotonic", ev.monotonic);
    TextEntry("opname", opname);
    U64Entry("sequence", ev.sequence);
    TextEntry("unit", unit);
    TextKey("metrics");
    var e1 := Entry("id", TextItem(ev.id));
    var e2 := e1 + Entry("timestamp_monotonic", U64Item(ev.monotonic));
    var e3 := e2 + Entry("opname", TextItem(opname));
    var e4 := e3 + Entry("sequence", U64Item(ev.sequence));
    var e5 := e4 + Entry("unit", TextItem(unit));
    LeafLensConcat(e1, Entry("timestamp_monotonic", U64Item(ev.monotonic)));
    LeafLensConcat(e2, Entry("opname", TextItem(opname)));
    LeafLensConcat(e3, Entry("sequence", U64Item(ev.sequence)));
    LeafLensConcat(e4, Entry("unit", TextItem(unit)));
    LeafLensConcat(e5, [TextItem(Ascii("metrics"))]);
  }

  lemma {:induction false} MetricsLen(s: St.Stats)
    ensures Leaves(Metrics(s)) && LeafLens(Metrics(s)) == 183 && |Metrics(s)| == 12
  {
    hide Leaves, Entry, LeafLens;
    U64Entry("min_latency", s.min);
    U64Entry("max_latency", s.max);
    U64Entry("total_latency", s.totalLat);
    U64Entry("total_bytes", s.totalBytes);
    U64Entry("count_samples", s.count);
    U64Entry("aggregation_time", St.AGG_INTERVAL);
    var e1 := Entry("min_latency", U64Item(s.min));
    var e2 := e1 + Entry("max_latency", U64Item(s.max));
    var e3 := e2 + Entry("total_latency", U64Item(s.totalLat));
    var e4 := e3 + Entry("total_bytes", U64Item(s.totalBytes));
    var e5 := e4 + Entry("count_samples", U64Item(s.count));
    LeafLensConcat(e1, Entry("max_latency", U64Item(s.max)));
    LeafLensConcat(e2, Entry("total_latency", U64Item(s.totalLat)));
    LeafLensConcat(e3, Entry("total_bytes", U64Item(s.totalBytes)));
    LeafLensConcat(e4, Entry("count_samples", U64Item(s.count)));
    LeafLensConcat(e5, Entry("aggregation_time", U64Item(St.AGG_INTERVAL)));
  }

  /** A text that can be published: the unchecked conversions demand UTF-8, and it is in memory. */
  predicate Publishable(b: bytes) {
    |b| <= BUFSIZE && Utf8(b)
  }

  /** A map with leaves, an inner map of leaves, and leaves again. */
  function NestedBytes(a: seq<Item>, m: seq<Item>, z: seq<Item>): bytes
    requires ValidAll(a) && ValidAll(m) && ValidAll(z)
  {
    [0xbf] + (EncodeAll(a) + ([0xbf] + EncodeAll(m) + [BREAK]) + EncodeAll(z)) + [BREAK]
  }

  /** The record is a valid item, written as a nesting of three runs of leaves, of a size known in advance. */
  lemma {:induction false} RecordPieces(ev: Event, snap: Snapshot, opname: bytes, unit: bytes)
    requires Publishable(ev.id) && Publishable(snap.Prefix()) && Publishable(opname) && Publishable(unit)
    ensures var x := RecordItem(ev, snap, opname, unit);
            var (a, m, z) := (Before(ev, opname, unit), Metrics(snap.stats), Behind(snap.Prefix()));
            Leaves(a) && Leaves(m) && Leaves(z) && ValidAll(a) && ValidAll(m) && ValidAll(z) && Valid(x)
            && Encode(x) == NestedBytes(a, m, z)
            && LeafLens(a) + LeafLens(m) + LeafLens(z) + 4 == |Encode(x)|
              == 361 + |ev.id| + |opname| + |unit| + |snap.Prefix()|
  {
    hide Before, Metrics, LeafLens, Utf8, EncodeAll, Entry, Leaves;
    var a, m, z := Before(ev, opname, unit), Metrics(snap.stats), Behind(snap.Prefix());
    BeforeLen(ev, opname, unit);
    MetricsLen(snap.stats);
    TextEntry("path_prefix", snap.Prefix());
    LeavesEncode(a);
    LeavesEncode(m);
    LeavesEncode(z);
    hide ValidAll;
    Nested(a, m, z, 6, 7);
  }

  lemma {:induction false} Nested(a: seq<Item>, m: seq<Item>, z: seq<Item>, inPairs: nat, pairs: nat)
    requires ValidAll(a) && ValidAll(m) && ValidAll(z)
    requires |m| == 2 * inPairs && |a| + 1 + |z| == 2 * pairs
    ensures var x := CollIndef(true, a + [CollIndef(true, m)] + z);
            Valid(x) && Encode(x) == NestedBytes(a, m, z)
  {
    hide Encode, Valid;
    var inner := CollIndef(true, m);
    IndefMapEncodes(m, inPairs);
    assert ValidAll([inner]) && EncodeAll([inner]) == Encode(inner) by {
      assert EncodeAll([inner]) == Encode(inner) + EncodeAll([]);
    }
    hide EncodeAll, ValidAll;
    EncodeAllConcat(a, [inner]);
    EncodeAllConcat(a + [inner], z);
    var xs := a + [inner] + z;
    assert |xs| == 2 * pairs;
    IndefMapEncodes(xs, pairs);
  }

  lemma {:induction false} IndefMapEncodes(xs: seq<Item>, pairs: nat)
    requires ValidAll(xs) && |xs| == 2 * pairs
    ensures Valid(CollIndef(true, xs)) && Encode(CollIndef(true, xs)) == [0xbf] + EncodeAll(xs) + [BREAK]
  {
    hide EncodeAll;
  }

  /** A write whose result is not looked at. */
  method MustPutByte(e: Encoder, b: byte)
    requires e.Valid() && e.pos + 1 <= e.buf.Length
    modifies e`pos, e.buf
    ensures e.Valid() && e.Written() == old(e.Written()) + [b]
  {
    var ok := e.PutByte(b);
    assert ok;
  }

  method MustPutLeaves(e: Encoder, xs: seq<Item>)
    requires e.Valid() && Leaves(xs) && e.pos + LeafLens(xs) <= e.buf.Length
    modifies e`pos, e.buf
    ensures ValidAll(xs) && e.Valid() && e.Written() == old(e.Written()) + EncodeAll(xs)
  {
    hide Leaves, LeafLens, EncodeAll, Writable;
    LeavesEncode(xs);
    var ok := e.EncodeItems(xs);
    assert ok;
  }

  /** The chain of writes: map, leaves, inner map, leaves, end, leaves, end. */
  method PutNested(e: Encoder, a: seq<Item>, m: seq<Item>, z: seq<Item>)
    requires e.Valid() && e.pos == 0 && Leaves(a) && Leaves(m) && Leaves(z)
    requires LeafLens(a) + LeafLens(m) + LeafLens(z) + 4 <= e.buf.Length
    modifies e`pos, e.buf
    ensures e.Valid() && ValidAll(a) && ValidAll(m) && ValidAll(z)
    ensures e.Written() == NestedBytes(a, m, z)
  {
    hide EncodeAll, LeafLens, Leaves, Wrote, Encode, ValidAll;
    LeavesEncode(a);
    LeavesEncode(m);
    LeavesEncode(z);
    assert e.Written() == [];
    MustPutByte(e, 0xbf);
    MustPutLeaves(e, a);
    MustPutByte(e, 0xbf);
    MustPutLeaves(e, m);
    MustPutByte(e, BREAK);
    MustPutLeaves(e, z);
    MustPutByte(e, BREAK);
    OneAfterAnother([0xbf], EncodeAll(a), [0xbf], EncodeAll(m), [BREAK], EncodeAll(z), [BREAK]);
  }

  /**
    Publish one snapshot into a reserved block, whatever bytes it holds. The writes are not checked for success,
    so that each of them fits is what makes this safe.
   */
  method RingbufPut(reserved: bool, block: array<byte>, ev: Event, snap: Snapshot, opname: bytes, unit: bytes)
    returns (ok: bool)
    requires block.Length == BUFSIZE
    requires Publishable(ev.id) && Publishable(snap.Prefix()) && Publishable(opname) && Publishable(unit)
    requires 361 + |ev.id| + |opname| + |unit| + |snap.Prefix()| <= BUFSIZE
    modifies block
    ensures ok <==> reserved
    ensures !reserved ==> block[..] == old(block[..])
    ensures ok ==>
      Valid(RecordItem(ev, snap, opname, unit))
      && At(block[..], 0, Encode(RecordItem(ev, snap, opname, unit)))
    ensures ok ==>
      var x := RecordItem(ev, snap, opname, unit);
      ItemAt(block[..], 0) == Parsed(x, 361 + |ev.id| + |opname| + |unit| + |snap.Prefix()|)
    ensures ok ==> ItemAt(block[..], 0).Parsed? && Publishes(ItemAt(block[..], 0).value, ev, snap, opname, unit)
  {
    if !reserved {
      return false;
    }
    hide RecordItem, Publishes, Encode, Valid, ItemAt, Utf8, At;
    WriteRecord(block, ev, snap, opname, unit);
    ReadsBack(block[..], ev, snap, opname, unit);
    ok := true;
  }

  method WriteRecord(block: array<byte>, ev: Event, snap: Snapshot, opname: bytes, unit: bytes)
    requires block.Length == BUFSIZE
    requires Publishable(ev.id) && Publishable(snap.Prefix()) && Publishable(opname) && Publishable(unit)
    requires 361 + |ev.id| + |opname| + |unit| + |snap.Prefix()| <= BUFSIZE
    modifies block
    ensures Valid(RecordItem(ev, snap, opname, unit))
    ensures At(block[..], 0, Encode(RecordItem(ev, snap, opname, unit)))
  {
    hide Before, Metrics, Behind, EncodeAll, LeafLens, Leaves, Utf8, Wrote, Encode, Valid, NestedBytes, ValidAll;
    RecordPieces(ev, snap, opname, unit);
    hide RecordItem;
    var e := new Encoder(block);
    PutNested(e, Before(ev, opname, unit), Metrics(snap.stats), Behind(snap.Prefix()));
    assert At(block[..], 0, e.Written());
  }

  /** Wherever the record stands, reading it gives what was published, whatever follows. */
  lemma {:induction false} ReadsBack(block: bytes, ev: Event, snap: Snapshot, opname: bytes, unit: bytes)
    requires Publishable(ev.id) && Publishable(snap.Prefix()) && Publishable(opname) && Publishable(unit)
    requires Valid(RecordItem(ev, snap, opname, unit)) && At(block, 0, Encode(RecordItem(ev, snap, opname, unit)))
    ensures ItemAt(block, 0)
         == Parsed(RecordItem(ev, snap, opname, unit), 361 + |ev.id| + |opname| + |unit| + |snap.Prefix()|)
    ensures Publishes(ItemAt(block, 0).value, ev, snap, opname, unit)
  {
    hide RecordItem, Publishes, Encode, Valid, ItemAt, Utf8, At, NestedBytes, Leaves, LeafLens, ValidAll;
    RecordPieces(ev, snap, opname, unit);
    RecordPublishes(ev, snap, opname, unit);
    DecodesItem(block, 0, RecordItem(ev, snap, opname, unit));
  }

  /** The longest name of a probed function, `vfs_fsync_range`. */
  const MAX_NAME: nat := 15

  /** As the exit probe calls it, for every probed function and every prefix: all the writes fit. */
  method PublishSnapshot(
    reserved: bool, block: array<byte>, now: St.u64, sequence: St.u64, snap: Snapshot, opname: bytes)
    returns (ok: bool)
    requires block.Length == BUFSIZE && |snap.pathPrefix| == PathSpec.PATHFRAGLEN
    requires Utf8(snap.Prefix()) && Utf8(opname) && |opname| <= MAX_NAME
    modifies block
    ensures ok <==> reserved
    ensures ok ==>
      var x := RecordItem(Event(Ascii("fslat/v2"), now, sequence), snap, opname, Ascii("ns"));
      ItemAt(block[..], 0) == Parsed(x, 371 + |opname| + |snap.Prefix()|)
    ensures ok ==>
      var ev := Event(Ascii("fslat/v2"), now, sequence);
      ItemAt(block[..], 0).Parsed? && Publishes(ItemAt(block[..], 0).value, ev, snap, opname, Ascii("ns"))
  {
    IdAndUnit();
    assert Publishable(snap.Prefix()) && Publishable(opname);
    hide Ascii, Publishable, ItemAt, RecordItem, Encode, Valid, Publishes, At, Utf8;
    ok := RingbufPut(reserved, block, Event(Ascii("fslat/v2"), now, sequence), snap, opname, Ascii("ns"));
  }

  lemma {:induction false} IdAndUnit()
    ensures Publishable(Ascii("fslat/v2")) && |Ascii("fslat/v2")| == 8 && Publishable(Ascii("ns")) && |Ascii("ns")| == 2
  {
    AsciiIsUtf8(Ascii("fslat/v2"));
    AsciiIsUtf8(Ascii("ns"));
    hide Utf8;
  }

  /** The writes in turn give the nested bytes. */
  lemma {:induction false} OneAfterAnother(h: bytes, a: bytes, h2: bytes, m: bytes, b: bytes, z: bytes, b2: bytes)
    ensures [] + h + a + h2 + m + b + z + b2 == h + (a + (h2 + m + b) + z) + b2
  {
  }
}
