/**
  The CBOR data items this library reads, as trees, and the bytes each stands for. A tree records the width of every
  head, so it covers every encoding and not only the shortest one. `ValidAgainstWellFormed` says how they differ from
  the well-formed items of RFC 8949.
 */
module Items {
  import opened Wire

  datatype Chunk = Chunk(w: Width, data: bytes)

  datatype Item =
    | Num(negative: bool, w: Width, n: nat)              // major types 0 and 1
    | Str(text: bool, chunk: Chunk)                      // major types 2 and 3
    | StrIndef(text: bool, chunks: seq<Chunk>)
    | Coll(isMap: bool, w: Width, items: seq<Item>)      // major types 4 and 5; a map lists key, value, key, ...
    | CollIndef(isMap: bool, items: seq<Item>)
    | Tagged(w: Width, tag: nat, content: Item)          // major type 6
    | Prim(w: Width, n: nat)                             // major type 7: simple values and float bits

  /** UTF-8 as `str::from_utf8` checks it (table 3-7 of the Unicode standard). */
  predicate Utf8(s: bytes) {
    if s == [] then true
    else if s[0] < 0x80 then Utf8(s[1..])
    else if 0xC2 <= s[0] <= 0xDF then |s| >= 2 && Tail(s[1]) && Utf8(s[2..])
    else if 0xE0 <= s[0] <= 0xEF then
      |s| >= 3 && Tail(s[1]) && (s[0] == 0xE0 ==> s[1] >= 0xA0) && (s[0] == 0xED ==> s[1] < 0xA0)
      && Tail(s[2]) && Utf8(s[3..])
    else
      0xF0 <= s[0] <= 0xF4 && |s| >= 4
      && Tail(s[1]) && (s[0] == 0xF0 ==> s[1] >= 0x90) && (s[0] == 0xF4 ==> s[1] < 0x90)
      && Tail(s[2]) && Tail(s[3]) && Utf8(s[4..])
  }

  predicate Tail(b: byte) {
    0x80 <= b < 0xC0
  }

  predicate ValidChunk(text: bool, c: Chunk) {
    c.w.Fits(|c.data|) && (text ==> Utf8(c.data))
  }

  /** The length a definite collection announces: elements of an array, pairs of a map. */
  function Announced(isMap: bool, count: nat): nat {
    if isMap then count / 2 else count
  }

  predicate Valid(x: Item) {
    match x
    case Num(_, w, n) => w.Fits(n)
    case Str(text, c) => ValidChunk(text, c)
    case StrIndef(text, cs) => forall i :: 0 <= i < |cs| ==> ValidChunk(text, cs[i])
    case Coll(isMap, w, xs) => (isMap ==> |xs| % 2 == 0) && w.Fits(Announced(isMap, |xs|)) && ValidAll(xs)
    case CollIndef(isMap, xs) => (isMap ==> |xs| % 2 == 0) && ValidAll(xs)
    case Tagged(w, tag, y) => w.Fits(tag) && Valid(y)
    case Prim(w, n) => w.Fits(n)
  }

  predicate ValidAll(xs: seq<Item>) {
    xs == [] || (Valid(xs[0]) && ValidAll(xs[1..]))
  }

  function EncodeChunk(text: bool, c: Chunk): bytes
    requires ValidChunk(text, c)
  {
    Head(StrMajor(text), c.w, |c.data|) + c.data
  }

  function EncodeChunks(text: bool, cs: seq<Chunk>): bytes
    requires forall i :: 0 <= i < |cs| ==> ValidChunk(text, cs[i])
  {
    if cs == [] then [] else EncodeChunk(text, cs[0]) + EncodeChunks(text, cs[1..])
  }

  function StrMajor(text: bool): nat { if text then 3 else 2 }
  function CollMajor(isMap: bool): nat { if isMap then 5 else 4 }

  /** The initial byte of an item of indefinite length. */
  function IndefHead(major: nat): (b: byte)
    requires major < 8
    ensures b == 32 * major + 31
  { 32 * major + 31 }

  function Encode(x: Item): bytes
    requires Valid(x)
    decreases x
  {
    match x
    case Num(neg, w, n) => Head(if neg then 1 else 0, w, n)
    case Str(text, c) => EncodeChunk(text, c)
    case StrIndef(text, cs) => [IndefHead(StrMajor(text))] + EncodeChunks(text, cs) + [BREAK]
    case Coll(isMap, w, xs) => Head(CollMajor(isMap), w, Announced(isMap, |xs|)) + EncodeAll(xs)
    case CollIndef(isMap, xs) => [IndefHead(CollMajor(isMap))] + EncodeAll(xs) + [BREAK]
    case Tagged(w, tag, y) => Head(6, w, tag) + Encode(y)
    case Prim(w, n) => Head(7, w, n)
  }

  function EncodeAll(xs: seq<Item>): bytes
    requires ValidAll(xs)
    decreases xs
  {
    if xs == [] then [] else Encode(xs[0]) + EncodeAll(xs[1..])
  }

  /** The major type of an item. */
  function Major(x: Item): (m: nat)
    ensures m < 8
  {
    match x
    case Num(neg, _, _) => if neg then 1 else 0
    case Str(text, _) => StrMajor(text)
    case StrIndef(text, _) => StrMajor(text)
    case Coll(isMap, _, _) => CollMajor(isMap)
    case CollIndef(isMap, _) => CollMajor(isMap)
    case Tagged(_, _, _) => 6
    case Prim(_, _) => 7
  }

  /** Every item starts with a byte of its own major type, which is never the break byte. */
  lemma {:induction false} FirstByte(x: Item)
    requires Valid(x)
    ensures Encode(x) != []
    ensures Encode(x)[0] / 32 == Major(x) && Encode(x)[0] != BREAK
    ensures Encode(x)[0] == NULL <==> x == Prim(Imm, 22)
  {
  }

  lemma {:induction false} EncodeAllLength(xs: seq<Item>)
    requires ValidAll(xs)
    ensures |EncodeAll(xs)| >= |xs|
  {
    if xs != [] {
      FirstByte(xs[0]);
      EncodeAllLength(xs[1..]);
    }
  }

  lemma {:induction false} EncodeAllConcat(xs: seq<Item>, ys: seq<Item>)
    requires ValidAll(xs) && ValidAll(ys)
    ensures ValidAll(xs + ys)
    ensures EncodeAll(xs + ys) == EncodeAll(xs) + EncodeAll(ys)
  {
    hide Encode, Valid;
    if xs == [] {
      assert xs + ys == ys;
    } else {
      EncodeAllConcat(xs[1..], ys);
      assert (xs + ys)[1..] == xs[1..] + ys && (xs + ys)[0] == xs[0];
      Regroup(Encode(xs[0]), EncodeAll(xs[1..]), EncodeAll(ys));
    }
  }

  // ----- well-formedness by Appendix C of RFC 8949 -----

  /** Text need not be UTF-8 to be well-formed, and a simple value below 32 must not take two bytes. */
  predicate WellFormed(x: Item) {
    match x
    case Num(_, w, n) => w.Fits(n)
    case Str(_, c) => c.w.Fits(|c.data|)
    case StrIndef(_, cs) => forall i :: 0 <= i < |cs| ==> cs[i].w.Fits(|cs[i].data|)
    case Coll(isMap, w, xs) => (isMap ==> |xs| % 2 == 0) && w.Fits(Announced(isMap, |xs|)) && AllWellFormed(xs)
    case CollIndef(isMap, xs) => (isMap ==> |xs| % 2 == 0) && AllWellFormed(xs)
    case Tagged(w, tag, y) => w.Fits(tag) && WellFormed(y)
    case Prim(w, n) => w.Fits(n) && (w == W1 ==> n >= 32)
  }

  predicate AllWellFormed(xs: seq<Item>) {
    xs == [] || (WellFormed(xs[0]) && AllWellFormed(xs[1..]))
  }

  /** All text in the item is UTF-8. */
  predicate TextIsUtf8(x: Item) {
    match x
    case Str(text, c) => text ==> Utf8(c.data)
    case StrIndef(text, cs) => text ==> forall i :: 0 <= i < |cs| ==> Utf8(cs[i].data)
    case Coll(_, _, xs) => AllTextIsUtf8(xs)
    case CollIndef(_, xs) => AllTextIsUtf8(xs)
    case Tagged(_, _, y) => TextIsUtf8(y)
    case _ => true
  }

  predicate AllTextIsUtf8(xs: seq<Item>) {
    xs == [] || (TextIsUtf8(xs[0]) && AllTextIsUtf8(xs[1..]))
  }

  /** No simple value below 32 takes two bytes. */
  predicate SimplesAreShort(x: Item) {
    match x
    case Coll(_, _, xs) => AllSimplesAreShort(xs)
    case CollIndef(_, xs) => AllSimplesAreShort(xs)
    case Tagged(_, _, y) => SimplesAreShort(y)
    case Prim(w, n) => w == W1 ==> n >= 32
    case _ => true
  }

  predicate AllSimplesAreShort(xs: seq<Item>) {
    xs == [] || (SimplesAreShort(xs[0]) && AllSimplesAreShort(xs[1..]))
  }

  /** The items of this model are the well-formed ones, up to two-byte simple values below 32 and text in UTF-8. */
  lemma {:induction false} ValidAgainstWellFormed(x: Item)
    ensures Valid(x) && SimplesAreShort(x) <==> WellFormed(x) && TextIsUtf8(x)
    decreases x, 1
  {
    match x
    case Coll(_, _, xs) => AllValidAgainstWellFormed(xs);
    case CollIndef(_, xs) => AllValidAgainstWellFormed(xs);
    case Tagged(_, _, y) => ValidAgainstWellFormed(y);
    case _ =>
  }

  lemma {:induction false} AllValidAgainstWellFormed(xs: seq<Item>)
    ensures ValidAll(xs) && AllSimplesAreShort(xs) <==> AllWellFormed(xs) && AllTextIsUtf8(xs)
    decreases xs, 0
  {
    if xs != [] {
      ValidAgainstWellFormed(xs[0]);
      AllValidAgainstWellFormed(xs[1..]);
    }
  }
}
