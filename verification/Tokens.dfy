/** CBOR tokens: decoding one at a position, the stream of them, and the tokens a data item consists of. */
module Tokens {
  import opened Wire
  import opened Items
  import opened Reads
  import opened Integers
  import opened Decoding

  datatype Token =
    | TBool(b: bool)
    | TInt(t: Type, v: int)
    | TFloat(w: Width, bits: nat)
    | TBytes(data: bytes)
    | TString(data: bytes)
    | TArray(n: nat)
    | TMap(n: nat)
    | TTag(n: nat)
    | TSimple(n: nat)
    | TBreak | TNull | TUndefined
    | TBeginBytes | TBeginString | TBeginArray | TBeginMap

  /** `Token::decode`: the type announced decides which reader is used. */
  function TokenAt(buf: bytes, pos: nat): (r: Res<Token>)
    ensures r.Ok? ==> pos < r.pos <= |buf|
  {
    match DatatypeAt(buf, pos)
    case Err(e, p) => Err(e, p)
    case Ok(t, _) => TokenOf(buf, pos, t)
  }

  function TokenOf(buf: bytes, pos: nat, t: Type): (r: Res<Token>)
    ensures r.Ok? && pos < |buf| ==> pos < r.pos <= |buf|
  {
    if IsInteger(t) then MapRes(IntegerAt(buf, pos, t), v => TInt(t, v))
    else match t
      case Bool => MapRes(BoolAt(buf, pos), b => TBool(b))
      case F16 => MapRes(FloatAt(buf, pos, W2), FloatToken)
      case F32 => MapRes(FloatAt(buf, pos, W4), FloatToken)
      case F64 => MapRes(FloatAt(buf, pos, W8), FloatToken)
      case Bytes => MapRes(DefiniteAt(buf, pos, false), d => TBytes(d))
      case String => MapRes(DefiniteAt(buf, pos, true), d => TString(d))
      case Tag => MapRes(ArgumentAt(buf, pos, 6), n => TTag(n))
      case Simple => MapRes(SimpleAt(buf, pos), n => TSimple(n))
      case Array => WithLength(LengthAt(buf, pos, 4), (n: nat) => TArray(n))
      case Map => WithLength(LengthAt(buf, pos, 5), (n: nat) => TMap(n))
      case _ =>
        match ByteToken(t)
        case Some(tk) => Ok(tk, pos + 1)
        case None => Err(TypeMismatch(t), pos)
  }

  function FloatToken(f: Float): Token { TFloat(f.w, f.bits) }

  function WithLength(r: Res<Option<nat>>, f: nat -> Token): Res<Token> {
    match r
    case Ok(Some(n), p) => Ok(f(n), p)
    case Ok(None, p) => Err(TypeMismatch(Array), p)
    case Err(e, p) => Err(e, p)
  }

  /** The tokens that are a single byte. */
  function ByteToken(t: Type): Option<Token> {
    match t
    case BytesIndef => Some(TBeginBytes)
    case StringIndef => Some(TBeginString)
    case ArrayIndef => Some(TBeginArray)
    case MapIndef => Some(TBeginMap)
    case Null => Some(TNull)
    case Undefined => Some(TUndefined)
    case Break => Some(TBreak)
    case _ => None
  }

  /** The same with the decoder's readers. */
  method DecodeToken(d: Decoder) returns (r: Res<Token>)
    modifies d`pos
    ensures r == TokenAt(d.buf, old(d.pos)) && d.pos == r.pos
  {
    hide DatatypeAt, TokenOf;
    var t := DatatypeAt(d.buf, d.pos);
    if t.Err? {
      return Err(t.error, d.pos);
    }
    r := DecodeAs(d, t.value);
  }

  method DecodeAs(d: Decoder, t: Type) returns (r: Res<Token>)
    modifies d`pos
    ensures r == TokenOf(d.buf, old(d.pos), t) && d.pos == r.pos
  {
    hide IntegerAt, BoolAt, FloatAt, DefiniteAt, ArgumentAt, SimpleAt, LengthAt;
    if IsInteger(t) {
      var v := ReadInteger(d, t);
      return MapRes(v, v => TInt(t, v));
    }
    if ByteToken(t).Some? {
      d.pos := d.pos + 1;
      return Ok(ByteToken(t).value, d.pos);
    }
    match t
    case Bool =>
      var b := d.Bool();
      r := MapRes(b, b => TBool(b));
    case F16 =>
      var f := d.FloatValue(W2);
      r := MapRes(f, FloatToken);
    case F32 =>
      var f := d.FloatValue(W4);
      r := MapRes(f, FloatToken);
    case F64 =>
      var f := d.FloatValue(W8);
      r := MapRes(f, FloatToken);
    case Bytes =>
      var s := d.Definite(false);
      r := MapRes(s, s => TBytes(s));
    case String =>
      var s := d.Definite(true);
      r := MapRes(s, s => TString(s));
    case Tag =>
      var n := d.Argument(6);
      r := MapRes(n, n => TTag(n));
    case Simple =>
      var n := d.SimpleValue();
      r := MapRes(n, n => TSimple(n));
    case Array =>
      var n := d.Length(4);
      r := WithLength(n, (n: nat) => TArray(n));
    case Map =>
      var n := d.Length(5);
      r := WithLength(n, (n: nat) => TMap(n));
    case Unknown(_) =>
      r := Err(TypeMismatch(t), d.pos);
  }

  // ----- the stream -----

  datatype Lexeme = Good(t: Token) | Bad(e: Error)

  /** What the iterator yields from a position on: tokens, and at most one error, which ends it. */
  function TokensFrom(buf: bytes, pos: nat): seq<Lexeme>
    decreases |buf| - pos
  {
    match TokenAt(buf, pos)
    case Ok(t, p) => [Good(t)] + TokensFrom(buf, p)
    case Err(EndOfInput, _) => []
    case Err(e, _) => [Bad(e)]
  }

  class Tokenizer {
    const d: Decoder

    constructor (input: bytes)
      ensures fresh(d) && d.buf == input && d.pos == 0
    {
      d := new Decoder(input);
    }

    /** The next token; an error drains the input. */
    method NextToken() returns (r: Res<Token>)
      modifies d`pos
      ensures r == TokenAt(d.buf, old(d.pos))
      ensures r.Ok? ==> old(d.pos) < d.pos == r.pos <= |d.buf|
      ensures r.Err? ==> d.pos == |d.buf|
    {
      hide TokenAt;
      r := DecodeToken(d);
      if r.Err? {
        d.pos := |d.buf|;
      }
    }

    method Next() returns (r: Option<Lexeme>)
      modifies d`pos
      ensures TokensFrom(d.buf, old(d.pos)) == if r.Some? then [r.value] + TokensFrom(d.buf, d.pos) else []
      ensures r == None ==> TokensFrom(d.buf, d.pos) == []
    {
      hide TokenAt;
      var t := NextToken();
      Drained(d.buf);
      match t
      case Ok(tk, _) => r := Some(Good(tk));
      case Err(e, _) => r := if e.EndOfInput? then None else Some(Bad(e));
    }

    /** Iterating comes to an end on every input and gives the whole stream. */
    method Collect() returns (ls: seq<Lexeme>)
      modifies d`pos
      ensures ls == TokensFrom(d.buf, old(d.pos)) && TokensFrom(d.buf, d.pos) == []
    {
      hide TokensFrom;
      ls := [];
      assert [] + TokensFrom(d.buf, d.pos) == TokensFrom(d.buf, d.pos);
      while true
        invariant TokensFrom(d.buf, old(d.pos)) == ls + TokensFrom(d.buf, d.pos)
        decreases |TokensFrom(d.buf, d.pos)|
      {
        var l := Next();
        if l == None {
          assert ls + [] == ls;
          return;
        }
        ghost var rest := TokensFrom(d.buf, d.pos);
        assert ls + ([l.value] + rest) == (ls + [l.value]) + rest;
        ls := ls + [l.value];
      }
    }
  }

  lemma {:induction false} Drained(buf: bytes)
    ensures TokensFrom(buf, |buf|) == []
  {
  }

  // ----- the tokens of an item -----

  function LeafToken(x: Item): Token
    requires x.Num? || x.Str? || x.Prim?
  {
    match x
    case Num(_, _, _) => TInt(TypeFor(x), Denotes(x))
    case Str(text, c) => ChunkToken(text, c)
    case Prim(w, n) =>
      if w == Imm then
        if n == 20 || n == 21 then TBool(n == 21)
        else if n == 22 then TNull
        else if n == 23 then TUndefined
        else TSimple(n)
      else if w == W1 then TSimple(n)
      else TFloat(w, n)
  }

  function ChunkToken(text: bool, c: Chunk): Token {
    if text then TString(c.data) else TBytes(c.data)
  }

  function ChunkTokens(text: bool, cs: seq<Chunk>): seq<Lexeme> {
    if cs == [] then [] else [Good(ChunkToken(text, cs[0]))] + ChunkTokens(text, cs[1..])
  }

  function OpenToken(x: Item): Token
    requires x.StrIndef? || x.Coll? || x.CollIndef? || x.Tagged?
  {
    match x
    case StrIndef(text, _) => if text then TBeginString else TBeginBytes
    case Coll(isMap, _, xs) => if isMap then TMap(|xs| / 2) else TArray(|xs|)
    case CollIndef(isMap, _) => if isMap then TBeginMap else TBeginArray
    case Tagged(_, tag, _) => TTag(tag)
  }

  function Flat(x: Item): seq<Lexeme>
    decreases x
  {
    match x
    case StrIndef(text, cs) => [Good(OpenToken(x))] + ChunkTokens(text, cs) + [Good(TBreak)]
    case Coll(_, _, xs) => [Good(OpenToken(x))] + FlatAll(xs)
    case CollIndef(_, xs) => [Good(OpenToken(x))] + FlatAll(xs) + [Good(TBreak)]
    case Tagged(_, _, y) => [Good(OpenToken(x))] + Flat(y)
    case _ => [Good(LeafToken(x))]
  }

  function FlatAll(xs: seq<Item>): seq<Lexeme>
    decreases xs
  {
    if xs == [] then [] else Flat(xs[0]) + FlatAll(xs[1..])
  }

  lemma {:induction false} IntToken(buf: bytes, pos: nat, x: Item)
    requires x.Num? && Valid(x) && At(buf, pos, Encode(x))
    ensures TokenAt(buf, pos) == Ok(LeafToken(x), pos + |Encode(x)|)
  {
    hide IntegerAt, At, Head;
    FirstByte(x);
    assert pos < |buf| by {
      HeadReads(buf, pos, if x.negative then 1 else 0, x.w, x.n);
    }
    DatatypeOfInteger(buf, pos, x);
    NamedReaderSucceeds(buf, pos, x);
  }

  /** The type announced by a head with an argument. */
  lemma {:induction false} HeadType(buf: bytes, pos: nat, major: nat, info: nat)
    requires pos < |buf| && 2 <= major <= 6 && info < 28 && buf[pos] / 32 == major && buf[pos] % 32 == info
    ensures DatatypeAt(buf, pos) == Ok(
      if major == 2 then Bytes
      else if major == 3 then String
      else if major == 4 then Array
      else if major == 5 then Map
      else Tag, pos)
  {
  }

  lemma {:induction false} PrimType(buf: bytes, pos: nat, w: Width, n: nat)
    requires pos < |buf| && w.Fits(n) && buf[pos] / 32 == 7 && buf[pos] % 32 == w.Info(n)
    ensures DatatypeAt(buf, pos) == Ok(
      match w
      case Imm => (if n == 20 || n == 21 then Bool else if n == 22 then Null else if n == 23 then Undefined else Simple)
      case W1 => Simple case W2 => F16 case W4 => F32 case W8 => F64, pos)
    ensures buf[pos] == 224 + w.Info(n)
  {
  }

  lemma {:induction false} StrToken(buf: bytes, pos: nat, text: bool, c: Chunk)
    requires ValidChunk(text, c) && At(buf, pos, EncodeChunk(text, c))
    ensures TokenAt(buf, pos) == Ok(ChunkToken(text, c), pos + |EncodeChunk(text, c)|)
  {
    hide UnsignedAt, IntegerAt, DefiniteAt, DatatypeAt, At, Head;
    AtConcat(buf, pos, Head(StrMajor(text), c.w, |c.data|), c.data);
    HeadReads(buf, pos, StrMajor(text), c.w, |c.data|);
    HeadType(buf, pos, StrMajor(text), c.w.Info(|c.data|));
    ChunkReads(buf, pos, text, c);
  }

  lemma {:induction false} StrEncodes(text: bool, c: Chunk)
    requires ValidChunk(text, c)
    ensures Encode(Str(text, c)) == EncodeChunk(text, c)
  {
  }

  lemma {:induction false} PrimToken(buf: bytes, pos: nat, x: Item)
    requires x.Prim? && Valid(x) && At(buf, pos, Encode(x))
    ensures TokenAt(buf, pos) == Ok(LeafToken(x), pos + |Encode(x)|)
  {
    hide IntegerAt, DefiniteAt, Head, At, FromBigEndian, UnsignedAt, DatatypeAt, FloatAt, SimpleAt;
    HeadReads(buf, pos, 7, x.w, x.n);
    PrimType(buf, pos, x.w, x.n);
    PrimArgument(buf, pos, x.w, x.n);
  }

  /** Simple values and floats are read without the general argument reader. */
  lemma {:induction false} PrimArgument(buf: bytes, pos: nat, w: Width, n: nat)
    requires w.Fits(n) && pos < |buf| && buf[pos] == 224 + w.Info(n)
    requires UnsignedAt(buf, pos + 1, buf[pos] % 32) == Ok(n, pos + 1 + w.Extra())
    ensures w == W1 || (w == Imm && n < 20) ==> SimpleAt(buf, pos) == Ok(n, pos + 1 + w.Extra())
    ensures w in {W2, W4, W8} ==> FloatAt(buf, pos, w) == Ok(Float(w, n), pos + 1 + w.Extra())
  {
    if w == W1 {
      assert FromBigEndian([buf[pos + 1]]) == buf[pos + 1];
      assert buf[pos + 1..pos + 2] == [buf[pos + 1]];
    }
  }

  lemma {:induction false} HeadToken(buf: bytes, pos: nat, x: Item)
    requires (x.Coll? || x.Tagged?) && Valid(x) && At(buf, pos, Encode(x))
    ensures TokenAt(buf, pos) == Ok(OpenToken(x), pos + 1 + x.w.Extra())
    ensures var body := if x.Coll? then EncodeAll(x.items) else Encode(x.content);
            At(buf, pos + 1 + x.w.Extra(), body) && |Encode(x)| == 1 + x.w.Extra() + |body|
  {
    hide UnsignedAt, IntegerAt, DefiniteAt, EncodeAll, At, Head, DatatypeAt;
    var major, n := Major(x), if x.Coll? then Announced(x.isMap, |x.items|) else x.tag;
    AtConcat(buf, pos, Head(major, x.w, n), if x.Coll? then EncodeAll(x.items) else Encode(x.content));
    HeadReads(buf, pos, major, x.w, n);
    HeadType(buf, pos, major, x.w.Info(n));
  }

  lemma {:induction false} SingleByte(buf: bytes, pos: nat, b: byte)
    requires At(buf, pos, [b]) && b in {0x5f, 0x7f, 0x9f, 0xbf, BREAK}
    ensures TokenAt(buf, pos) == Ok(
      if b == 0x5f then TBeginBytes else if b == 0x7f then TBeginString else if b == 0x9f then TBeginArray
      else if b == 0xbf then TBeginMap else TBreak, pos + 1)
  {
    hide IntegerAt, DefiniteAt;
    AtByte(buf, pos, b);
  }

  lemma {:induction false} Cons(buf: bytes, pos: nat, t: Token, p: nat, ls: seq<Lexeme>, q: nat)
    requires TokenAt(buf, pos) == Ok(t, p) && TokensFrom(buf, p) == ls + TokensFrom(buf, q)
    ensures TokensFrom(buf, pos) == [Good(t)] + ls + TokensFrom(buf, q)
  {
  }

  lemma {:induction false} TokenizesChunks(buf: bytes, pos: nat, text: bool, cs: seq<Chunk>)
    requires Valid(StrIndef(text, cs)) && At(buf, pos, EncodeChunks(text, cs))
    ensures TokensFrom(buf, pos) == ChunkTokens(text, cs) + TokensFrom(buf, pos + |EncodeChunks(text, cs)|)
    decreases cs
  {
    hide TokenAt, TokensFrom, EncodeChunk;
    if cs == [] {
      assert [] + TokensFrom(buf, pos) == TokensFrom(buf, pos);
    } else {
      AtConcat(buf, pos, EncodeChunk(text, cs[0]), EncodeChunks(text, cs[1..]));
      StrToken(buf, pos, text, cs[0]);
      var p := pos + |EncodeChunk(text, cs[0])|;
      assert Valid(StrIndef(text, cs[1..]));
      TokenizesChunks(buf, p, text, cs[1..]);
      Cons(buf, pos, ChunkToken(text, cs[0]), p, ChunkTokens(text, cs[1..]), p + |EncodeChunks(text, cs[1..])|);
    }
  }

  /** The tokenizer cuts the encoding of an item into exactly the item's tokens and goes on behind it. */
  lemma {:induction false} TokenizesItem(buf: bytes, pos: nat, x: Item)
    requires Valid(x) && At(buf, pos, Encode(x))
    ensures TokensFrom(buf, pos) == Flat(x) + TokensFrom(buf, pos + |Encode(x)|)
    decreases x, 1
  {
    hide TokenAt, TokensFrom, At, EncodeChunk, EncodeAll, FlatAll, Encode;
    var end := pos + |Encode(x)|;
    assert [] + TokensFrom(buf, end) == TokensFrom(buf, end);
    match x
    case Num(_, _, _) =>
      IntToken(buf, pos, x);
      Cons(buf, pos, LeafToken(x), end, [], end);
    case Str(text, c) =>
      StrEncodes(text, c);
      StrToken(buf, pos, text, c);
      Cons(buf, pos, LeafToken(x), end, [], end);
    case Prim(_, _) =>
      PrimToken(buf, pos, x);
      Cons(buf, pos, LeafToken(x), end, [], end);
    case Coll(_, _, xs) =>
      HeadToken(buf, pos, x);
      TokenizesItems(buf, pos + 1 + x.w.Extra(), xs);
      Cons(buf, pos, OpenToken(x), pos + 1 + x.w.Extra(), FlatAll(xs), end);
    case Tagged(_, _, y) =>
      HeadToken(buf, pos, x);
      TokenizesItem(buf, pos + 1 + x.w.Extra(), y);
      Cons(buf, pos, OpenToken(x), pos + 1 + x.w.Extra(), Flat(y), end);
    case _ =>
      TokenizesIndef(buf, pos, x);
  }

  lemma {:induction false} TokenizesIndef(buf: bytes, pos: nat, x: Item)
    requires (x.StrIndef? || x.CollIndef?) && Valid(x) && At(buf, pos, Encode(x))
    ensures TokensFrom(buf, pos) == Flat(x) + TokensFrom(buf, pos + |Encode(x)|)
    decreases x, 0
  {
    hide TokenAt, TokensFrom, At, FlatAll, EncodeAll, EncodeChunks, ChunkTokens;
    var end := pos + |Encode(x)|;
    var h: byte := IndefHead(Major(x));
    var body := if x.StrIndef? then EncodeChunks(x.text, x.chunks) else EncodeAll(x.items);
    var flat := if x.StrIndef? then ChunkTokens(x.text, x.chunks) else FlatAll(x.items);
    assert Encode(x) == [h] + (body + [BREAK]);
    hide Encode;
    AtConcat(buf, pos, [h], body + [BREAK]);
    AtConcat(buf, pos + 1, body, [BREAK]);
    SingleByte(buf, pos, h);
    SingleByte(buf, end - 1, BREAK);
    if x.StrIndef? {
      TokenizesChunks(buf, pos + 1, x.text, x.chunks);
    } else {
      TokenizesItems(buf, pos + 1, x.items);
    }
    Closed(buf, pos + 1, flat, end);
    Cons(buf, pos, OpenToken(x), pos + 1, flat + [Good(TBreak)], end);
    assert Flat(x) == [Good(OpenToken(x))] + (flat + [Good(TBreak)]);
  }

  lemma {:induction false} Closed(buf: bytes, pos: nat, flat: seq<Lexeme>, end: nat)
    requires end > 0 && TokenAt(buf, end - 1) == Ok(TBreak, end)
      && TokensFrom(buf, pos) == flat + TokensFrom(buf, end - 1)
    ensures TokensFrom(buf, pos) == flat + [Good(TBreak)] + TokensFrom(buf, end)
  {
    hide TokensFrom, TokenAt;
    assert [] + TokensFrom(buf, end) == TokensFrom(buf, end);
    Cons(buf, end - 1, TBreak, end, [], end);
    assert flat + ([Good(TBreak)] + [] + TokensFrom(buf, end)) == (flat + [Good(TBreak)]) + TokensFrom(buf, end);
  }

  lemma {:induction false} TokenizesItems(buf: bytes, pos: nat, xs: seq<Item>)
    requires ValidAll(xs) && At(buf, pos, EncodeAll(xs))
    ensures TokensFrom(buf, pos) == FlatAll(xs) + TokensFrom(buf, pos + |EncodeAll(xs)|)
    decreases xs, 0
  {
    hide TokensFrom, Encode, Flat;
    if xs == [] {
      assert [] + TokensFrom(buf, pos) == TokensFrom(buf, pos);
    } else {
      AtConcat(buf, pos, Encode(xs[0]), EncodeAll(xs[1..]));
      TokenizesItem(buf, pos, xs[0]);
      TokenizesItems(buf, pos + |Encode(xs[0])|, xs[1..]);
    }
  }

  // ----- where the stream ends -----

  /** Behind the tokens of the items in front of it, an error is the last element, and the end of the input none. */
  lemma {:induction false} TokensThenError(buf: bytes, pos: nat, xs: seq<Item>)
    requires ValidAll(xs) && At(buf, pos, EncodeAll(xs)) && TokenAt(buf, pos + |EncodeAll(xs)|).Err?
    ensures var e := TokenAt(buf, pos + |EncodeAll(xs)|).error;
            TokensFrom(buf, pos) == FlatAll(xs) + if e == EndOfInput then [] else [Bad(e)]
  {
    hide TokenAt, EncodeAll, FlatAll, At;
    TokenizesItems(buf, pos, xs);
  }

  /** The initial bytes that section 3 of RFC 8949 reserves. */
  predicate Reserved(b: byte) {
    28 <= b % 32 <= 30 || (b % 32 == 31 && b / 32 in {0, 1, 6})
  }

  /** A reserved initial byte is an unknown type. */
  lemma {:induction false} ReservedToken(buf: bytes, pos: nat)
    requires pos < |buf| && Reserved(buf[pos])
    ensures TokenAt(buf, pos) == Err(TypeMismatch(Unknown(buf[pos])), pos)
  {
  }

  /** Text that is not UTF-8 is refused. */
  lemma {:induction false} BadTextToken(buf: bytes, pos: nat, w: Width, data: bytes)
    requires w.Fits(|data|) && At(buf, pos, Head(3, w, |data|) + data) && !Utf8(data)
    ensures TokenAt(buf, pos).Err? && TokenAt(buf, pos).error == InvalidUtf8
  {
    hide UnsignedAt, IntegerAt, DatatypeAt, Head, Utf8;
    AtConcat(buf, pos, Head(3, w, |data|), data);
    HeadReads(buf, pos, 3, w, |data|);
    HeadType(buf, pos, 3, w.Info(|data|));
    assert SliceAt(buf, pos + 1 + w.Extra(), |data|) == Ok(data, pos + 1 + w.Extra() + |data|);
  }

  /** Items followed by a reserved byte or by bad text give their tokens and then exactly that error. */
  lemma {:induction false} TokensThenKnownError(buf: bytes, pos: nat, xs: seq<Item>, w: Width, data: bytes)
    requires ValidAll(xs) && At(buf, pos, EncodeAll(xs)) && w.Fits(|data|)
    ensures var q := pos + |EncodeAll(xs)|;
            q < |buf| && Reserved(buf[q]) ==> TokensFrom(buf, pos) == FlatAll(xs) + [Bad(TypeMismatch(Unknown(buf[q])))]
    ensures At(buf, pos + |EncodeAll(xs)|, Head(3, w, |data|) + data) && !Utf8(data) ==>
      TokensFrom(buf, pos) == FlatAll(xs) + [Bad(InvalidUtf8)]
  {
    hide TokenAt, TokensFrom, EncodeAll, FlatAll, At, Utf8, Head;
    var q := pos + |EncodeAll(xs)|;
    if q < |buf| && Reserved(buf[q]) {
      ReservedToken(buf, q);
      TokensThenError(buf, pos, xs);
    }
    if At(buf, q, Head(3, w, |data|) + data) && !Utf8(data) {
      BadTextToken(buf, q, w, data);
      TokensThenError(buf, pos, xs);
    }
  }
}
