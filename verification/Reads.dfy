/**
  What each reader of the decoder returns at a position of the input, and where it leaves the position.
  A failed reader leaves the position where the failing read stopped, as the source does.
  `usize` has 64 bits.
 */
module Reads {
  import opened Wire
  import opened Items

  datatype Type =
    | Bool | Null | Undefined
    | U8 | U16 | U32 | U64 | I8 | I16 | I32 | I64 | Int
    | F16 | F32 | F64 | Simple
    | Bytes | BytesIndef | String | StringIndef
    | Array | ArrayIndef | Map | MapIndef
    | Tag | Break | Unknown(b: byte)

  datatype Error =
    | EndOfInput
    | TypeMismatch(t: Type)
    | Overflow(n: nat)
    | InvalidUtf8
    | NeedsAlloc
    | UnknownVariant(variant: int)
    | MissingValue(index: int)
    | Message

  datatype Res<+T> = Ok(value: T, pos: nat) | Err(error: Error, pos: nat)

  function MapRes<T, U>(r: Res<T>, f: T -> U): Res<U> {
    match r
    case Ok(v, p) => Ok(f(v), p)
    case Err(e, p) => Err(e, p)
  }

  // ----- primitive reads -----

  function ReadAt(buf: bytes, pos: nat): Res<byte> {
    if pos < |buf| then Ok(buf[pos], pos + 1) else Err(EndOfInput, pos)
  }

  function SliceAt(buf: bytes, pos: nat, n: nat): Res<bytes> {
    if pos + n <= |buf| then Ok(buf[pos..pos + n], pos + n) else Err(EndOfInput, pos)
  }

  /** The sign test on the first argument byte of a negative integer, which decides the signed type. */
  function SignedType(buf: bytes, pos: nat, small: Type, large: Type): Res<Type> {
    if pos + 1 < |buf| then Ok(if buf[pos + 1] < 0x80 then small else large, pos) else Err(EndOfInput, pos)
  }

  /** The type an initial byte `b` announces; `pos` is where the decoder stands, which is what it peeks from. */
  function TypeOf(buf: bytes, pos: nat, b: byte): (r: Res<Type>)
    ensures r.pos == pos
  {
    if b <= 0x18 then Ok(U8, pos)
    else if b == 0x19 then Ok(U16, pos)
    else if b == 0x1a then Ok(U32, pos)
    else if b == 0x1b then Ok(U64, pos)
    else if 0x20 <= b <= 0x37 then Ok(I8, pos)
    else if b == 0x38 then SignedType(buf, pos, I8, I16)
    else if b == 0x39 then SignedType(buf, pos, I16, I32)
    else if b == 0x3a then SignedType(buf, pos, I32, I64)
    else if b == 0x3b then SignedType(buf, pos, I64, Int)
    else if 0x40 <= b <= 0x5b then Ok(Bytes, pos)
    else if b == 0x5f then Ok(BytesIndef, pos)
    else if 0x60 <= b <= 0x7b then Ok(String, pos)
    else if b == 0x7f then Ok(StringIndef, pos)
    else if 0x80 <= b <= 0x9b then Ok(Array, pos)
    else if b == 0x9f then Ok(ArrayIndef, pos)
    else if 0xa0 <= b <= 0xbb then Ok(Map, pos)
    else if b == 0xbf then Ok(MapIndef, pos)
    else if 0xc0 <= b <= 0xdb then Ok(Tag, pos)
    else if 0xe0 <= b <= 0xf3 || b == 0xf8 then Ok(Simple, pos)
    else if b == 0xf4 || b == 0xf5 then Ok(Bool, pos)
    else if b == 0xf6 then Ok(Null, pos)
    else if b == 0xf7 then Ok(Undefined, pos)
    else if b == 0xf9 then Ok(F16, pos)
    else if b == 0xfa then Ok(F32, pos)
    else if b == 0xfb then Ok(F64, pos)
    else if b == 0xff then Ok(Break, pos)
    else Ok(Unknown(b), pos)
  }

  function DatatypeAt(buf: bytes, pos: nat): (r: Res<Type>)
    ensures r.pos == pos
  {
    if pos < |buf| then TypeOf(buf, pos, buf[pos]) else Err(EndOfInput, pos)
  }

  /** The error of a reader that met an initial byte of the wrong kind. */
  function Mismatch<T>(buf: bytes, pos: nat, b: byte): (r: Res<T>)
    ensures r.Err? && r.pos == pos
  {
    match TypeOf(buf, pos, b)
    case Ok(t, _) => Err(TypeMismatch(t), pos)
    case Err(e, _) => Err(e, pos)
  }

  /** The argument of a head whose low five bits are `info`; `pos` is just past the initial byte. */
  function UnsignedAt(buf: bytes, pos: nat, info: byte): (r: Res<nat>)
    requires info < 32
    ensures r.pos >= pos && (pos <= |buf| ==> r.pos <= |buf|)
  {
    if info < 24 then Ok(info, pos)
    else if info <= 27 then
      var k := if info == 24 then 1 else if info == 25 then 2 else if info == 26 then 4 else 8;
      match SliceAt(buf, pos, k)
      case Ok(b, p) => Ok(FromBigEndian(b), p)
      case Err(e, p) => Err(e, p)
    else Mismatch(buf, pos, info)
  }

  /** An initial byte of the given major type, then the argument; `None` is the indefinite form. */
  function LengthAt(buf: bytes, pos: nat, major: nat): (r: Res<Option<nat>>)
    ensures r.Ok? ==> pos < r.pos <= |buf|
    ensures r.pos >= pos && (pos <= |buf| ==> r.pos <= |buf|)
  {
    if pos >= |buf| then Err(EndOfInput, pos)
    else
      var b := buf[pos];
      if b / 32 != major then Mismatch(buf, pos + 1, b)
      else if b % 32 == 31 then Ok(None, pos + 1)
      else MapRes(UnsignedAt(buf, pos + 1, b % 32), n => Some(n))
  }

  /** A head that must carry an argument: integers, tags and the like. */
  function ArgumentAt(buf: bytes, pos: nat, major: nat): (r: Res<nat>)
    ensures r.Ok? ==> pos < r.pos <= |buf|
    ensures r.pos >= pos && (pos <= |buf| ==> r.pos <= |buf|)
  {
    if pos >= |buf| then Err(EndOfInput, pos)
    else
      var b := buf[pos];
      if b / 32 != major then Mismatch(buf, pos + 1, b) else UnsignedAt(buf, pos + 1, b % 32)
  }

  // ----- simple values and floats -----

  /** A reader that accepts a single initial byte: `null` and `undefined`. */
  function ExactlyAt(buf: bytes, pos: nat, want: byte): (r: Res<()>)
    ensures r.Ok? ==> pos < r.pos <= |buf|
  {
    if pos >= |buf| then Err(EndOfInput, pos)
    else if buf[pos] == want then Ok((), pos + 1)
    else Mismatch(buf, pos + 1, buf[pos])
  }

  function BoolAt(buf: bytes, pos: nat): (r: Res<bool>)
    ensures r.Ok? ==> pos < r.pos <= |buf|
  {
    if pos >= |buf| then Err(EndOfInput, pos)
    else if buf[pos] == 0xf4 || buf[pos] == 0xf5 then Ok(buf[pos] == 0xf5, pos + 1)
    else Mismatch(buf, pos + 1, buf[pos])
  }

  function SimpleAt(buf: bytes, pos: nat): (r: Res<byte>)
    ensures r.Ok? ==> pos < r.pos <= |buf|
  {
    if pos >= |buf| then Err(EndOfInput, pos)
    else if 0xe0 <= buf[pos] <= 0xf3 then Ok(buf[pos] - 0xe0, pos + 1)
    else if buf[pos] == 0xf8 then ReadAt(buf, pos + 1)
    else Mismatch(buf, pos + 1, buf[pos])
  }

  /** A float by its bits. */
  datatype Float = Float(w: Width, bits: nat)

  /**
    `f16`, `f32` and `f64`: a float of width `w` or of a smaller one, which is widened. The half reader has taken the
    initial byte when it refuses it, the others have not.
   */
  function FloatAt(buf: bytes, pos: nat, w: Width): (r: Res<Float>)
    ensures r.Ok? ==> pos < r.pos <= |buf|
  {
    if pos >= |buf| then Err(EndOfInput, pos)
    else if buf[pos] == 0xf9 then FloatBitsAt(buf, pos + 1, W2)
    else if buf[pos] == 0xfa && (w == W4 || w == W8) then FloatBitsAt(buf, pos + 1, W4)
    else if buf[pos] == 0xfb && w == W8 then FloatBitsAt(buf, pos + 1, W8)
    else Mismatch(buf, if w == W4 || w == W8 then pos else pos + 1, buf[pos])
  }

  function FloatBitsAt(buf: bytes, pos: nat, w: Width): (r: Res<Float>)
    ensures r.Ok? ==> pos <= r.pos <= |buf|
  {
    MapRes(SliceAt(buf, pos, w.Extra()), b => Float(w, FromBigEndian(b)))
  }

  // ----- strings -----

  function CheckText(text: bool, r: Res<bytes>): Res<bytes> {
    if r.Ok? && text && !Utf8(r.value) then Err(InvalidUtf8, r.pos) else r
  }

  /** `bytes` and `str`: one definite-length string. */
  function DefiniteAt(buf: bytes, pos: nat, text: bool): (r: Res<bytes>)
    ensures r.Ok? ==> pos < r.pos <= |buf|
    ensures r.pos >= pos && (pos <= |buf| ==> r.pos <= |buf|)
  {
    if pos >= |buf| then Err(EndOfInput, pos)
    else
      var b := buf[pos];
      if b / 32 != StrMajor(text) || b % 32 == 31 then Mismatch(buf, pos + 1, b)
      else match UnsignedAt(buf, pos + 1, b % 32)
        case Ok(n, p) => CheckText(text, SliceAt(buf, p, n))
        case Err(e, p) => Err(e, p)
  }

  function Prepend(got: seq<bytes>, r: Res<seq<bytes>>): Res<seq<bytes>> {
    if r.Ok? then Ok(got + r.value, r.pos) else r
  }

  lemma {:induction false} PrependTwice(a: seq<bytes>, b: seq<bytes>, r: Res<seq<bytes>>)
    ensures Prepend([], r) == r && Prepend(a, Prepend(b, r)) == Prepend(a + b, r)
  {
    if r.Ok? {
      assert [] + r.value == r.value && a + (b + r.value) == (a + b) + r.value;
    }
  }

  /** The chunks of an indefinite string, up to and including its break byte. */
  function ChunksAt(buf: bytes, pos: nat, text: bool): (r: Res<seq<bytes>>)
    ensures r.Ok? ==> pos < r.pos <= |buf|
    ensures r.pos >= pos && (pos <= |buf| ==> r.pos <= |buf|)
    decreases |buf| - pos
  {
    if pos >= |buf| then Err(EndOfInput, pos)
    else if buf[pos] == BREAK then Ok([], pos + 1)
    else match DefiniteAt(buf, pos, text)
      case Err(e, p) => Err(e, p)
      case Ok(c, p) => Prepend([c], ChunksAt(buf, p, text))
  }

  /** `bytes_iter` and `str_iter`, driven to the end. */
  function StringsAt(buf: bytes, pos: nat, text: bool): (r: Res<seq<bytes>>)
    ensures r.Ok? ==> pos < r.pos <= |buf|
    ensures r.pos >= pos && (pos <= |buf| ==> r.pos <= |buf|)
  {
    if pos >= |buf| then Err(EndOfInput, pos)
    else
      var b := buf[pos];
      if b / 32 != StrMajor(text) then Mismatch(buf, pos + 1, b)
      else if b % 32 == 31 then ChunksAt(buf, pos + 1, text)
      else match UnsignedAt(buf, pos + 1, b % 32)
        case Ok(n, p) => MapRes(CheckText(text, SliceAt(buf, p, n)), c => [c])
        case Err(e, p) => Err(e, p)
  }

  // ----- readers on encoded heads -----

  /** Whatever width a head was written in, its argument is read back and the position is after the head. */
  lemma {:induction false} HeadReads(buf: bytes, pos: nat, major: nat, w: Width, n: nat)
    requires major < 8 && w.Fits(n) && At(buf, pos, Head(major, w, n))
    ensures pos + 1 + w.Extra() <= |buf|
    ensures buf[pos] / 32 == major && buf[pos] % 32 == w.Info(n) < 28
    ensures UnsignedAt(buf, pos + 1, buf[pos] % 32) == Ok(n, pos + 1 + w.Extra())
  {
    var b := 32 * major + w.Info(n);
    var tail := BigEndian(n, w.Extra());
    AtConcat(buf, pos, [b], tail);
    AtByte(buf, pos, b);
    assert b / 32 == major && b % 32 == w.Info(n);
    if w != Imm {
      BigEndianRoundTrip(n, w.Extra());
      assert SliceAt(buf, pos + 1, w.Extra()) == Ok(tail, pos + 1 + w.Extra());
    }
  }

  lemma {:induction false} ChunkReads(buf: bytes, pos: nat, text: bool, c: Chunk)
    requires ValidChunk(text, c) && At(buf, pos, EncodeChunk(text, c))
    ensures DefiniteAt(buf, pos, text) == Ok(c.data, pos + |EncodeChunk(text, c)|)
    ensures StringsAt(buf, pos, text) == Ok([c.data], pos + |EncodeChunk(text, c)|)
    ensures pos < |buf| && buf[pos] != BREAK
  {
    var h := Head(StrMajor(text), c.w, |c.data|);
    AtConcat(buf, pos, h, c.data);
    HeadReads(buf, pos, StrMajor(text), c.w, |c.data|);
    assert SliceAt(buf, pos + |h|, |c.data|) == Ok(c.data, pos + |h| + |c.data|);
  }

  function Payloads(cs: seq<Chunk>): seq<bytes> {
    if cs == [] then [] else [cs[0].data] + Payloads(cs[1..])
  }

  lemma {:induction false} ChunksRead(buf: bytes, pos: nat, text: bool, cs: seq<Chunk>)
    requires forall i :: 0 <= i < |cs| ==> ValidChunk(text, cs[i])
    requires At(buf, pos, EncodeChunks(text, cs) + [BREAK])
    ensures ChunksAt(buf, pos, text) == Ok(Payloads(cs), pos + |EncodeChunks(text, cs)| + 1)
    decreases cs
  {
    hide At, DefiniteAt, StringsAt, EncodeChunk;
    if cs == [] {
      assert EncodeChunks(text, cs) + [BREAK] == [BREAK];
      AtByte(buf, pos, BREAK);
    } else {
      var c := EncodeChunk(text, cs[0]);
      var rest := EncodeChunks(text, cs[1..]) + [BREAK];
      assert EncodeChunks(text, cs) + [BREAK] == c + rest;
      AtConcat(buf, pos, c, rest);
      ChunkReads(buf, pos, text, cs[0]);
      ChunksRead(buf, pos + |c|, text, cs[1..]);
    }
  }

  /** An indefinite string of any chunks is drained exactly to its break byte. */
  lemma {:induction false} IndefStringReads(buf: bytes, pos: nat, text: bool, cs: seq<Chunk>)
    requires Valid(StrIndef(text, cs)) && At(buf, pos, Encode(StrIndef(text, cs)))
    ensures pos < |buf| && buf[pos] == IndefHead(StrMajor(text))
    ensures StringsAt(buf, pos, text) == Ok(Payloads(cs), pos + |Encode(StrIndef(text, cs))|)
  {
    var h: byte := IndefHead(StrMajor(text));
    var rest := EncodeChunks(text, cs) + [BREAK];
    assert Encode(StrIndef(text, cs)) == [h] + rest;
    AtConcat(buf, pos, [h], rest);
    AtByte(buf, pos, h);
    ChunksRead(buf, pos + 1, text, cs);
  }
}
