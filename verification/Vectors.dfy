/** Test vectors of Appendix A of RFC 8949: the encodings the model gives are those of the standard. */
module Vectors {
  import opened Wire
  import opened Items

  lemma {:induction false} OneByte()
    ensures W1.Fits(24) && Encode(Num(false, W1, 24)) == [0x18, 0x18]
  {
  }

  lemma {:induction false} TwoBytes()
    ensures W2.Fits(1000) && Encode(Num(false, W2, 1000)) == [0x19, 0x03, 0xe8]
  {
    assert BigEndian(3, 1) == [0x03];
  }

  lemma {:induction false} FourBytes()
    ensures (Pow256Values(); W4.Fits(1_000_000)) && Encode(Num(false, W4, 1_000_000)) == [0x1a, 0x00, 0x0f, 0x42, 0x40]
  {
    Pow256Values();
    assert BigEndian(0, 1) == [0x00];
    assert BigEndian(15, 2) == [0x00, 0x0f];
    assert BigEndian(3906, 3) == [0x00, 0x0f, 0x42];
  }

  lemma {:induction false} EightBytes()
    ensures (Pow256Values(); W8.Fits(1_000_000_000_000))
    ensures (Pow256Values();
      Encode(Num(false, W8, 1_000_000_000_000)) == [0x1b, 0x00, 0x00, 0x00, 0xe8, 0xd4, 0xa5, 0x10, 0x00])
  {
    Pow256Values();
    assert BigEndian(0, 1) == [0x00];
    assert BigEndian(0, 2) == [0x00, 0x00];
    assert BigEndian(0, 3) == [0x00, 0x00, 0x00];
    assert BigEndian(0xe8, 4) == [0x00, 0x00, 0x00, 0xe8];
    assert BigEndian(0xe8d4, 5) == [0x00, 0x00, 0x00, 0xe8, 0xd4];
    assert BigEndian(0xe8d4a5, 6) == [0x00, 0x00, 0x00, 0xe8, 0xd4, 0xa5];
    assert BigEndian(0xe8d4_a510, 7) == [0x00, 0x00, 0x00, 0xe8, 0xd4, 0xa5, 0x10];
    assert 0xe8_d4a5_1000 == 1_000_000_000_000;
  }

  lemma {:induction false} Negative()
    ensures Encode(Num(true, Imm, 0)) == [0x20] && W1.Fits(99) && Encode(Num(true, W1, 99)) == [0x38, 0x63]
    ensures W2.Fits(999) && Encode(Num(true, W2, 999)) == [0x39, 0x03, 0xe7]
  {
    Pow256Values();
  }

  lemma {:induction false} Primitives()
    ensures Encode(Prim(Imm, 20)) == [0xf4] && Encode(Prim(Imm, 21)) == [0xf5]
    ensures Encode(Prim(Imm, 22)) == [0xf6] && Encode(Prim(Imm, 23)) == [0xf7] && Encode(Prim(Imm, 16)) == [0xf0]
    ensures W1.Fits(255) && Encode(Prim(W1, 255)) == [0xf8, 0xff]
    ensures W2.Fits(0x3c00) && Encode(Prim(W2, 0x3c00)) == [0xf9, 0x3c, 0x00]
  {
    Pow256Values();
  }

  lemma {:induction false} Strings()
    ensures Encode(Str(false, Chunk(Imm, [1, 2, 3, 4]))) == [0x44, 0x01, 0x02, 0x03, 0x04]
    ensures Valid(Str(true, Chunk(Imm, [0x61]))) && Encode(Str(true, Chunk(Imm, [0x61]))) == [0x61, 0x61]
    ensures Encode(StrIndef(false, [Chunk(Imm, [1, 2]), Chunk(Imm, [3, 4, 5])]))
         == [0x5f, 0x42, 0x01, 0x02, 0x43, 0x03, 0x04, 0x05, 0xff]
  {
    var cs := [Chunk(Imm, [1, 2]), Chunk(Imm, [3, 4, 5])];
    assert cs[1..] == [Chunk(Imm, [3, 4, 5])] && cs[1..][1..] == [];
    assert EncodeChunks(false, cs[1..]) == [0x43, 0x03, 0x04, 0x05];
    assert EncodeChunks(false, cs) == [0x42, 0x01, 0x02] + [0x43, 0x03, 0x04, 0x05];
  }

  const PAIR: seq<Item> := [Num(false, Imm, 1), Num(false, Imm, 2)]

  lemma {:induction false} PairEncodes()
    ensures ValidAll(PAIR) && EncodeAll(PAIR) == [0x01, 0x02]
  {
    var x, y := Num(false, Imm, 1), Num(false, Imm, 2);
    assert Valid(x) && Valid(y) && Encode(x) == [0x01] && Encode(y) == [0x02];
    hide Encode, Valid;
    Nothing();
    var last := [y];
    assert last[0] == y && last[1..] == [];
    assert ValidAll(last) && EncodeAll(last) == [0x02];
    assert PAIR[0] == x && PAIR[1..] == last;
  }

  lemma {:induction false} Containers()
    ensures Encode(Coll(false, Imm, [])) == [0x80] && Encode(CollIndef(false, [])) == [0x9f, 0xff]
    ensures Valid(Coll(false, Imm, PAIR)) && Encode(Coll(false, Imm, PAIR)) == [0x82, 0x01, 0x02]
    ensures Valid(Coll(true, Imm, PAIR)) && Encode(Coll(true, Imm, PAIR)) == [0xa1, 0x01, 0x02]
    ensures Valid(CollIndef(true, PAIR)) && Encode(CollIndef(true, PAIR)) == [0xbf, 0x01, 0x02, 0xff]
  {
    PairEncodes();
    hide EncodeAll, ValidAll;
    assert ValidAll([]) && EncodeAll([]) == [] by {
      Nothing();
    }
  }

  lemma {:induction false} Nothing()
    ensures ValidAll([]) && EncodeAll([]) == []
  {
  }

  lemma {:induction false} Tag()
    ensures Encode(Tagged(Imm, 23, Str(false, Chunk(Imm, [1, 2, 3, 4])))) == [0xd7, 0x44, 0x01, 0x02, 0x03, 0x04]
  {
  }
}
