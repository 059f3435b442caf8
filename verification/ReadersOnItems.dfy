/**
  What each reader of the decoder makes of each kind of item: its own kind is read and every other kind is refused
  with the type that stands there. Literal values are those of section 3.3 of RFC 8949.
 */
module ReadersOnItems {
  import opened Wire
  import opened Items
  import opened Reads
  import opened Skip
  import opened Parse
  import opened Integers
  import opened Tokens

  /** `x` stands at `pos`, ends at `p`, and is the integer `v` of type `t`. */
  ghost predicate IsIntegerItem(buf: bytes, pos: nat, x: Item, t: Type, v: int, p: nat)
    requires IsInteger(t)
  {
    x.Num? && Valid(x) && At(buf, pos, Encode(x)) && Denotes(x) == v && InRange(t, v) && p == pos + |Encode(x)|
  }

  /** An integer reader succeeds exactly on an integer item that its type holds. */
  lemma {:induction false} IntegerExactly(buf: bytes, pos: nat, t: Type, v: int, p: nat)
    requires IsInteger(t)
    ensures IntegerAt(buf, pos, t) == Ok(v, p)
       <==> exists x: Item :: IsIntegerItem(buf, pos, x, t, v, p)
  {
    hide At, Encode, Valid;
    if IntegerAt(buf, pos, t) == Ok(v, p) {
      var x := IntegerItem(buf, pos, t);
      ReadsWhatFits(buf, pos, x, t);
      assert IsIntegerItem(buf, pos, x, t, v, p);
    }
    if x: Item :| IsIntegerItem(buf, pos, x, t, v, p) {
      ReadsWhatFits(buf, pos, x, t);
    }
  }

  /** Where an integer reader succeeds, an integer item stands. */
  lemma {:induction false} IntegerItem(buf: bytes, pos: nat, t: Type) returns (x: Item)
    requires IsInteger(t) && IntegerAt(buf, pos, t).Ok?
    ensures x.Num? && Valid(x) && At(buf, pos, Encode(x))
  {
    hide At, UnsignedAt, Head;
    HeadFromReads(buf, pos);
    var n := UnsignedAt(buf, pos + 1, buf[pos] % 32).value;
    x := Num(buf[pos] / 32 == 1, WidthOf(buf[pos] % 32), n);
  }

  /** The refusal of an item of another kind by a reader that has taken the initial byte. */
  function Refusal<T>(buf: bytes, pos: nat, x: Item): Res<T> {
    if x.Num? && x.negative then Err(NegativeError(buf, pos, x.w), pos + 1)
    else match DatatypeAt(buf, pos)
      case Ok(t, _) => Err(TypeMismatch(t), pos + 1)
      case Err(e, _) => Err(e, pos + 1)
  }

  lemma {:induction false} RefusalIsMismatch<T>(buf: bytes, pos: nat, x: Item)
    requires Valid(x) && At(buf, pos, Encode(x))
    ensures pos < |buf| && buf[pos] / 32 == Major(x) && buf[pos] != BREAK
    ensures Mismatch<T>(buf, pos + 1, buf[pos]) == Refusal(buf, pos, x)
    ensures !x.Num? ==> DatatypeAt(buf, pos).Ok?
  {
    hide Encode;
    FirstByte(x);
    assert buf[pos] == Encode(x)[0];
    if x.Num? && x.negative {
      hide TypeOf;
      hide At;
      IntegerEncodes(x);
      HeadReads(buf, pos, 1, x.w, x.n);
      NegativeMismatch(buf, pos, x.w, x.n);
    } else {
      hide Valid;
    }
  }

  /** Text, containers, tags and everything else is refused by every integer reader. */
  lemma {:induction false} IntegerRefuses(buf: bytes, pos: nat, x: Item, t: Type)
    requires Valid(x) && !x.Num? && At(buf, pos, Encode(x)) && IsInteger(t)
    ensures DatatypeAt(buf, pos).Ok? && IntegerAt(buf, pos, t) == Err(TypeMismatch(DatatypeAt(buf, pos).value), pos + 1)
  {
    hide TypeOf, UnsignedAt, At, Encode, Valid;
    RefusalIsMismatch<int>(buf, pos, x);
  }

  /** `array` reads arrays only, and `map` maps. */
  lemma {:induction false} LengthReads(buf: bytes, pos: nat, x: Item, isMap: bool)
    requires Valid(x) && At(buf, pos, Encode(x))
    ensures LengthAt(buf, pos, if isMap then 5 else 4) ==
            if x.Coll? && x.isMap == isMap then
              Ok(Some(if isMap then |x.items| / 2 else |x.items|), pos + 1 + x.w.Extra())
            else if x.CollIndef? && x.isMap == isMap then Ok(None, pos + 1)
            else Refusal(buf, pos, x)
  {
    RefusalIsMismatch<Option<nat>>(buf, pos, x);
    hide UnsignedAt, EncodeAll, Refusal, Mismatch, Head, At;
    if x.Coll? {
      AtConcat(buf, pos, Head(CollMajor(x.isMap), x.w, Announced(x.isMap, |x.items|)), EncodeAll(x.items));
      HeadReads(buf, pos, CollMajor(x.isMap), x.w, Announced(x.isMap, |x.items|));
    } else if x.CollIndef? {
      IndefHeadByte(buf, pos, x);
    }
  }

  lemma {:induction false} IndefHeadByte(buf: bytes, pos: nat, x: Item)
    requires (x.CollIndef? || x.StrIndef?) && Valid(x) && At(buf, pos, Encode(x))
    ensures pos < |buf| && buf[pos] == 32 * Major(x) + 31
  {
    assert buf[pos] == Encode(x)[0];
  }

  /** `bytes` and `str` read strings of definite length of their own kind. */
  lemma {:induction false} StringReads(buf: bytes, pos: nat, x: Item, text: bool)
    requires Valid(x) && At(buf, pos, Encode(x))
    ensures DefiniteAt(buf, pos, text) ==
            if x.Str? && x.text == text then Ok(x.chunk.data, pos + |Encode(x)|) else Refusal(buf, pos, x)
  {
    RefusalIsMismatch<bytes>(buf, pos, x);
    hide UnsignedAt, Refusal, Mismatch, Head, At, EncodeChunks, Utf8;
    if x.Str? {
      ChunkReads(buf, pos, x.text, x.chunk);
    } else if x.StrIndef? {
      IndefHeadByte(buf, pos, x);
    }
  }

  lemma {:induction false} TagReads(buf: bytes, pos: nat, x: Item)
    requires Valid(x) && At(buf, pos, Encode(x))
    ensures ArgumentAt(buf, pos, 6) == if x.Tagged? then Ok(x.tag, pos + 1 + x.w.Extra()) else Refusal(buf, pos, x)
  {
    RefusalIsMismatch<nat>(buf, pos, x);
    hide UnsignedAt, Refusal, Mismatch, Head, At;
    if x.Tagged? {
      AtConcat(buf, pos, Head(6, x.w, x.tag), Encode(x.content));
      HeadReads(buf, pos, 6, x.w, x.tag);
    }
  }

  /** The initial byte of a simple value or a float, and of nothing else. */
  lemma {:induction false} PrimByte(buf: bytes, pos: nat, x: Item)
    requires Valid(x) && At(buf, pos, Encode(x))
    ensures pos < |buf|
    ensures if x.Prim? then buf[pos] == 224 + x.w.Info(x.n)
      && UnsignedAt(buf, pos + 1, buf[pos] % 32) == Ok(x.n, pos + |Encode(x)|)
            else buf[pos] < 224
  {
    RefusalIsMismatch<()>(buf, pos, x);
    hide UnsignedAt, Refusal, Mismatch, Head, At;
    if x.Prim? {
      HeadReads(buf, pos, 7, x.w, x.n);
      assert 224 + x.w.Info(x.n) == 32 * 7 + buf[pos] % 32;
    }
  }

  /** False is 20 and true is 21. */
  lemma {:induction false} BoolReads(buf: bytes, pos: nat, x: Item)
    requires Valid(x) && At(buf, pos, Encode(x))
    ensures BoolAt(buf, pos) ==
            if x == Prim(Imm, 20) then Ok(false, pos + 1)
            else if x == Prim(Imm, 21) then Ok(true, pos + 1)
            else Refusal(buf, pos, x)
  {
    RefusalIsMismatch<bool>(buf, pos, x);
    PrimByte(buf, pos, x);
    hide Refusal, Mismatch, Encode, At;
  }

  /** Null is 22 and undefined is 23. */
  lemma {:induction false} NullReads(buf: bytes, pos: nat, x: Item)
    requires Valid(x) && At(buf, pos, Encode(x))
    ensures ExactlyAt(buf, pos, 0xf6) == if x == Prim(Imm, 22) then Ok((), pos + 1) else Refusal(buf, pos, x)
    ensures ExactlyAt(buf, pos, 0xf7) == if x == Prim(Imm, 23) then Ok((), pos + 1) else Refusal(buf, pos, x)
  {
    RefusalIsMismatch<()>(buf, pos, x);
    PrimByte(buf, pos, x);
    hide Refusal, Mismatch, Encode, At;
  }

  /** Simple values other than those are read in one byte below 20 and in two bytes always. */
  lemma {:induction false} SimpleReads(buf: bytes, pos: nat, x: Item)
    requires Valid(x) && At(buf, pos, Encode(x))
    ensures SimpleAt(buf, pos) ==
            if x.Prim? && (x.w == W1 || (x.w == Imm && x.n < 20)) then Ok(x.n, pos + |Encode(x)|)
            else Refusal(buf, pos, x)
  {
    RefusalIsMismatch<byte>(buf, pos, x);
    PrimByte(buf, pos, x);
    if x.Prim? {
      PrimArgument(buf, pos, x.w, x.n);
      PrimEncodes(x);
    }
    hide Refusal, Mismatch, Encode, At, UnsignedAt;
  }

  lemma {:induction false} PrimEncodes(x: Item)
    requires x.Prim? && Valid(x)
    ensures |Encode(x)| == 1 + x.w.Extra()
  {
  }

  /** A float reader takes floats of its width or a smaller one; the wider ones refuse without taking a byte. */
  lemma {:induction false} FloatReads(buf: bytes, pos: nat, x: Item, w: Width)
    requires Valid(x) && At(buf, pos, Encode(x)) && w in {W2, W4, W8}
    ensures var r := FloatAt(buf, pos, w);
            if x.Prim? && x.w in {W2, W4, W8}
              && x.w.Extra() <= w.Extra() then r == Ok(Float(x.w, x.n), pos + |Encode(x)|)
            else if w == W2 then r == Refusal(buf, pos, x)
            else DatatypeAt(buf, pos).Ok? && r == Err(TypeMismatch(DatatypeAt(buf, pos).value), pos)
  {
    RefusalIsMismatch<Float>(buf, pos, x);
    DatatypeReads(buf, pos, x);
    PrimByte(buf, pos, x);
    if x.Prim? {
      PrimEncodes(x);
      if x.w in {W2, W4, W8} {
        PrimArgument(buf, pos, x.w, x.n);
      }
    }
    hide Refusal, Encode, At, UnsignedAt, FromBigEndian, TypeOf;
  }

  /** The type announced in front of every item. */
  lemma {:induction false} DatatypeReads(buf: bytes, pos: nat, x: Item)
    requires Valid(x) && At(buf, pos, Encode(x))
    ensures DatatypeAt(buf, pos) == Ok(match x
      case Num(negative, w, n) => (
        match w
        case Imm => if negative then I8 else U8
        case W1 => if !negative then U8 else if n < 0x80 then I8 else I16
        case W2 => if !negative then U16 else if n < 0x8000 then I16 else I32
        case W4 => if !negative then U32 else if n < 0x8000_0000 then I32 else I64
        case W8 => if !negative then U64 else if n < 0x8000_0000_0000_0000 then I64 else Int)
      case Str(text, _) => if text then String else Bytes
      case StrIndef(text, _) => if text then StringIndef else BytesIndef
      case Coll(isMap, _, _) => if isMap then Map else Array
      case CollIndef(isMap, _) => if isMap then MapIndef else ArrayIndef
      case Tagged(_, _, _) => Tag
      case Prim(w, n) =>
        match w
        case Imm => (if n == 20 || n == 21 then Bool else if n == 22 then Null else if n == 23 then Undefined
          else Simple)
        case W1 => Simple
        case W2 => F16
        case W4 => F32
        case W8 => F64, pos)
  {
    if x.Num? {
      DatatypeOfInteger(buf, pos, x);
    } else if x.Prim? {
      PrimByte(buf, pos, x);
      PrimType(buf, pos, x.w, x.n);
    } else if x.StrIndef? || x.CollIndef? {
      IndefHeadByte(buf, pos, x);
    } else {
      OtherHead(buf, pos, x);
    }
  }

  lemma {:induction false} OtherHead(buf: bytes, pos: nat, x: Item)
    requires (x.Str? || x.Coll? || x.Tagged?) && Valid(x) && At(buf, pos, Encode(x))
    ensures DatatypeAt(buf, pos) == Ok(
      if x.Str? then (if x.text then String else Bytes) else if x.Tagged? then Tag else if x.isMap then Map
        else Array, pos)
  {
    hide UnsignedAt, EncodeAll, Head, At, TypeOf, Utf8;
    match x
    case Str(text, c) =>
      AtConcat(buf, pos, Head(StrMajor(text), c.w, |c.data|), c.data);
      HeadReads(buf, pos, StrMajor(text), c.w, |c.data|);
      HeadType(buf, pos, StrMajor(text), c.w.Info(|c.data|));
    case Coll(isMap, w, xs) =>
      AtConcat(buf, pos, Head(CollMajor(isMap), w, Announced(isMap, |xs|)), EncodeAll(xs));
      HeadReads(buf, pos, CollMajor(isMap), w, Announced(isMap, |xs|));
      HeadType(buf, pos, CollMajor(isMap), w.Info(Announced(isMap, |xs|)));
    case Tagged(w, tag, y) =>
      AtConcat(buf, pos, Head(6, w, tag), Encode(y));
      HeadReads(buf, pos, 6, w, tag);
      HeadType(buf, pos, 6, w.Info(tag));
  }

  /** The integers each type holds. */
  lemma {:induction false} Ranges(v: int)
    ensures (InRange(U8, v) <==> 0 <= v <= 255) && (InRange(I8, v) <==> -128 <= v <= 127)
    ensures (InRange(U16, v) <==> 0 <= v <= 65_535) && (InRange(I16, v) <==> -32_768 <= v <= 32_767)
    ensures InRange(U32, v) <==> 0 <= v <= 4_294_967_295
    ensures InRange(I32, v) <==> -2_147_483_648 <= v <= 2_147_483_647
    ensures InRange(U64, v) <==> 0 <= v <= 18_446_744_073_709_551_615
    ensures InRange(I64, v) <==> -9_223_372_036_854_775_808 <= v <= 9_223_372_036_854_775_807
    ensures InRange(Int, v) <==> -18_446_744_073_709_551_616 <= v <= 18_446_744_073_709_551_615
  {
  }

  /** The token at every item: the item itself, or its head. */
  lemma {:induction false} TokenReads(buf: bytes, pos: nat, x: Item)
    requires Valid(x) && At(buf, pos, Encode(x))
    ensures TokenAt(buf, pos).Ok? && TokenAt(buf, pos).value == (match x
      case Num(_, _, n) => TInt(DatatypeAt(buf, pos).value, if x.negative then -1 - n else n)
      case Str(text, c) => if text then TString(c.data) else TBytes(c.data)
      case StrIndef(text, _) => if text then TBeginString else TBeginBytes
      case Coll(isMap, _, xs) => if isMap then TMap(|xs| / 2) else TArray(|xs|)
      case CollIndef(isMap, _) => if isMap then TBeginMap else TBeginArray
      case Tagged(_, tag, _) => TTag(tag)
      case Prim(w, n) =>
        if w == Imm && n == 20 then TBool(false)
        else if w == Imm && n == 21 then TBool(true)
        else if w == Imm && n == 22 then TNull
        else if w == Imm && n == 23 then TUndefined
        else if w == Imm || w == W1 then TSimple(n)
        else TFloat(w, n))
  {
    hide TokenAt, At, Encode, EncodeAll;
    match x
    case Num(_, _, _) =>
      IntToken(buf, pos, x);
      DatatypeOfInteger(buf, pos, x);
    case Str(text, c) =>
      StrEncodes(text, c);
      StrToken(buf, pos, text, c);
    case Prim(_, _) => PrimToken(buf, pos, x);
    case Coll(_, _, _) => HeadToken(buf, pos, x);
    case Tagged(_, _, _) => HeadToken(buf, pos, x);
    case _ => IndefToken(buf, pos, x);
  }

  lemma {:induction false} IndefToken(buf: bytes, pos: nat, x: Item)
    requires (x.CollIndef? || x.StrIndef?) && Valid(x) && At(buf, pos, Encode(x))
    ensures TokenAt(buf, pos) == Ok(OpenToken(x), pos + 1)
  {
    IndefHeadByte(buf, pos, x);
    hide TokenAt, Encode;
    AtByte(buf, pos, buf[pos]);
    SingleByte(buf, pos, buf[pos]);
  }

  /** Skipping refuses the reserved initial bytes; of strings, arrays and maps once their reader has taken the byte. */
  lemma {:induction false} SkipRefusesReserved(buf: bytes, pos: nat)
    requires pos < |buf| && Reserved(buf[pos])
    ensures var b := buf[pos];
            SkipAt(buf, pos) ==
              if 2 <= b / 32 <= 5 then Err(TypeMismatch(Unknown(b % 32)), pos + 1)
              else Err(TypeMismatch(Unknown(b)), pos)
  {
    hide ChunksAt, Advance;
    assert EventAt(buf, pos).Err?;
  }
}
