/** The integer readers. They differ only in the range of their type, so they are one reader over the type. */
module Integers {
  import opened Wire
  import opened Items
  import opened Reads
  import opened Decoding

  predicate IsInteger(t: Type) {
    t.U8? || t.U16? || t.U32? || t.U64? || t.I8? || t.I16? || t.I32? || t.I64? || t.Int?
  }

  predicate Signed(t: Type) {
    t.I8? || t.I16? || t.I32? || t.I64? || t.Int?
  }

  /** The largest argument of a head of either sign that the type can hold. */
  function MaxArg(t: Type): nat
    requires IsInteger(t)
  {
    match t
    case U8 => 0xff case U16 => 0xffff case U32 => 0xffff_ffff case U64 => U64_MAX
    case I8 => 0x7f case I16 => 0x7fff case I32 => 0x7fff_ffff case I64 => 0x7fff_ffff_ffff_ffff
    case Int => U64_MAX
  }

  /** The integers of the type. */
  predicate InRange(t: Type, v: int)
    requires IsInteger(t)
  {
    (if Signed(t) then -1 - MaxArg(t) else 0) <= v <= MaxArg(t)
  }

  function IntegerAt(buf: bytes, pos: nat, t: Type): (r: Res<int>)
    requires IsInteger(t)
    ensures r.Ok? ==> pos < r.pos <= |buf|
  {
    if pos >= |buf| then Err(EndOfInput, pos)
    else
      var b := buf[pos];
      if b % 32 >= 28 || b / 32 > (if Signed(t) then 1 else 0) then Mismatch(buf, pos + 1, b)
      else match UnsignedAt(buf, pos + 1, b % 32)
        case Err(e, p) => Err(e, p)
        case Ok(n, p) => if n > MaxArg(t) then Err(Overflow(n), p) else Ok(if b / 32 == 1 then -1 - n else n, p)
  }

  /** `u8`, `u16`, `u32`, `u64`, `i8`, `i16`, `i32`, `i64` and `int`. */
  method ReadInteger(d: Decoder, t: Type) returns (r: Res<int>)
    requires IsInteger(t)
    modifies d`pos
    ensures r == IntegerAt(d.buf, old(d.pos), t) && d.pos == r.pos
  {
    hide UnsignedAt, TypeOf;
    var b := d.Read();
    if b.Err? {
      return Err(b.error, b.pos);
    }
    if b.value % 32 >= 28 || b.value / 32 > (if Signed(t) then 1 else 0) {
      return Mismatch(d.buf, d.pos, b.value);
    }
    var n := d.Unsigned(b.value % 32);
    match n
    case Err(e, p) => r := Err(e, p);
    case Ok(v, p) =>
      if v > MaxArg(t) {
        return Err(Overflow(v), p);
      }
      r := Ok(if b.value / 32 == 1 then -1 - v else v, p);
  }

  /** The integer an item of major type 0 or 1 denotes. */
  function Denotes(x: Item): int
    requires x.Num?
  {
    if x.negative then -1 - x.n else x.n
  }

  /**
    The error of an unsigned reader on a negative integer. The type it reports is decided by the byte after the one
    that should decide it, which may be missing, because the initial byte has been taken already.
   */
  function NegativeError(buf: bytes, pos: nat, w: Width): Error {
    if w == Imm then TypeMismatch(I8)
    else if pos + 2 >= |buf| then EndOfInput
    else
      var small := buf[pos + 2] < 0x80;
      TypeMismatch(match w
        case Imm => I8
        case W1 => if small then I8 else I16
        case W2 => if small then I16 else I32
        case W4 => if small then I32 else I64
        case W8 => if small then I64 else Int)
  }

  /** Given any head form, a reader returns the integer denoted when its type holds it, and an error otherwise. */
  lemma {:induction false} ReadsWhatFits(buf: bytes, pos: nat, x: Item, t: Type)
    requires x.Num? && Valid(x) && At(buf, pos, Encode(x)) && IsInteger(t)
    ensures IntegerAt(buf, pos, t) ==
            if InRange(t, Denotes(x)) then Ok(Denotes(x), pos + |Encode(x)|)
            else if x.negative && !Signed(t) then Err(NegativeError(buf, pos, x.w), pos + 1)
            else Err(Overflow(x.n), pos + |Encode(x)|)
  {
    hide UnsignedAt, Head, At, TypeOf, NegativeError, Encode, Valid;
    IntegerEncodes(x);
    HeadReads(buf, pos, if x.negative then 1 else 0, x.w, x.n);
    if x.negative {
      NegativeMismatch(buf, pos, x.w, x.n);
    }
  }

  lemma {:induction false} IntegerEncodes(x: Item)
    requires x.Num? && Valid(x)
    ensures x.w.Fits(x.n) && Encode(x) == Head(if x.negative then 1 else 0, x.w, x.n)
  {
  }

  lemma {:induction false} NegativeMismatch(buf: bytes, pos: nat, w: Width, n: nat)
    requires pos < |buf| && w.Fits(n) && buf[pos] / 32 == 1 && buf[pos] % 32 == w.Info(n)
    ensures Mismatch<int>(buf, pos + 1, buf[pos]) == Err(NegativeError(buf, pos, w), pos + 1)
  {
  }

  lemma {:induction false} HighByte(n: nat, k: nat)
    requires k > 0 && n < Pow256(k)
    ensures BigEndian(n, k)[0] < 0x80 <==> n < 0x80 * Pow256(k - 1)
  {
    if k > 1 {
      HighByte(n / 256, k - 1);
      assert BigEndian(n, k)[0] == BigEndian(n / 256, k - 1)[0];
    }
  }

  /** The type announced for an integer, from its sign, its width and the first byte of its argument. */
  function TypeFor(x: Item): (t: Type)
    requires x.Num?
    ensures IsInteger(t)
  {
    match x.w
    case Imm => if x.negative then I8 else U8
    case W1 => if !x.negative then U8 else if x.n < 0x80 then I8 else I16
    case W2 => if !x.negative then U16 else if x.n < 0x8000 then I16 else I32
    case W4 => if !x.negative then U32 else if x.n < 0x8000_0000 then I32 else I64
    case W8 => if !x.negative then U64 else if x.n < 0x8000_0000_0000_0000 then I64 else Int
  }

  lemma {:induction false} DatatypeOfInteger(buf: bytes, pos: nat, x: Item)
    requires x.Num? && Valid(x) && At(buf, pos, Encode(x))
    ensures DatatypeAt(buf, pos) == Ok(TypeFor(x), pos)
  {
    hide UnsignedAt;
    var major := if x.negative then 1 else 0;
    HeadReads(buf, pos, major, x.w, x.n);
    if x.negative && x.w != Imm {
      Pow256Values();
      HighByte(x.n, x.w.Extra());
      assert buf[pos + 1] == Encode(x)[1] == BigEndian(x.n, x.w.Extra())[0];
      assert Pow256(3) == 0x100_0000 && Pow256(7) == 0x100_0000_0000_0000;
    }
  }

  /** On complete input, the reader that `datatype` names always succeeds. */
  lemma {:induction false} NamedReaderSucceeds(buf: bytes, pos: nat, x: Item)
    requires x.Num? && Valid(x) && At(buf, pos, Encode(x))
    ensures DatatypeAt(buf, pos).Ok? && IsInteger(DatatypeAt(buf, pos).value)
    ensures IntegerAt(buf, pos, DatatypeAt(buf, pos).value) == Ok(Denotes(x), pos + |Encode(x)|)
  {
    DatatypeOfInteger(buf, pos, x);
    Pow256Values();
    ReadsWhatFits(buf, pos, x, TypeFor(x));
  }
}
