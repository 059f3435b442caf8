/** Bytes, big-endian integers and CBOR item heads (section 3 of RFC 8949). */
module Wire {

  type byte = x: int | 0 <= x < 256
  type bytes = seq<byte>

  const U64_MAX: nat := 0xFFFF_FFFF_FFFF_FFFF

  datatype Option<+T> = None | Some(value: T)

  lemma {:induction false} Regroup<T>(a: seq<T>, b: seq<T>, c: seq<T>)
    ensures a + b + c == a + (b + c)
  {
  }

  /** `b` occupies `buf` from position `pos` on. */
  ghost predicate At(buf: bytes, pos: nat, b: bytes) {
    pos + |b| <= |buf| && buf[pos..pos + |b|] == b
  }

  lemma {:induction false} AtConcat(buf: bytes, pos: nat, a: bytes, b: bytes)
    ensures At(buf, pos, a + b) <==> At(buf, pos, a) && At(buf, pos + |a|, b)
  {
    if At(buf, pos, a + b) {
      assert buf[pos..pos + |a|] == buf[pos..pos + |a + b|][..|a|] == a;
      assert buf[pos + |a|..pos + |a| + |b|] == buf[pos..pos + |a + b|][|a|..] == b;
    }
    if At(buf, pos, a) && At(buf, pos + |a|, b) {
      assert buf[pos..pos + |a + b|] == buf[pos..pos + |a|] + buf[pos + |a|..pos + |a| + |b|];
    }
  }

  lemma {:induction false} AtByte(buf: bytes, pos: nat, b: byte)
    ensures At(buf, pos, [b]) <==> pos < |buf| && buf[pos] == b
  {
    if pos < |buf| {
      assert buf[pos..pos + 1] == [buf[pos]];
    }
  }

  // ----- big-endian integers -----

  function Pow256(k: nat): nat {
    if k == 0 then 1 else 256 * Pow256(k - 1)
  }

  lemma {:induction false} Pow256Values()
    ensures Pow256(1) == 0x100 && Pow256(2) == 0x1_0000
    ensures Pow256(4) == 0x1_0000_0000 && Pow256(8) == U64_MAX + 1
  {
    assert Pow256(3) == 0x100_0000;
    assert Pow256(5) == 0x100_0000_0000;
    assert Pow256(6) == 0x1_0000_0000_0000;
    assert Pow256(7) == 0x100_0000_0000_0000;
  }

  /** `to_be_bytes` of an unsigned integer of `k` bytes. */
  function BigEndian(n: nat, k: nat): (b: bytes)
    ensures |b| == k
  {
    if k == 0 then [] else BigEndian(n / 256, k - 1) + [n % 256]
  }

  /** `from_be_bytes`. */
  function FromBigEndian(b: bytes): nat {
    if b == [] then 0 else FromBigEndian(b[..|b| - 1]) * 256 + b[|b| - 1]
  }

  lemma {:induction false} BigEndianRoundTrip(n: nat, k: nat)
    requires n < Pow256(k)
    ensures FromBigEndian(BigEndian(n, k)) == n
  {
    if k > 0 {
      BigEndianRoundTrip(n / 256, k - 1);
      assert BigEndian(n, k)[..k - 1] == BigEndian(n / 256, k - 1);
    }
  }

  lemma {:induction false} FromBigEndianRoundTrip(b: bytes)
    ensures FromBigEndian(b) < Pow256(|b|)
    ensures BigEndian(FromBigEndian(b), |b|) == b
  {
    if b != [] {
      FromBigEndianRoundTrip(b[..|b| - 1]);
      assert b == b[..|b| - 1] + [b[|b| - 1]];
    }
  }

  // ----- item heads -----

  /** How the argument of a head is stored: inside the initial byte, or in the 1, 2, 4 or 8 bytes after it. */
  datatype Width = Imm | W1 | W2 | W4 | W8 {
    function Extra(): nat {
      match this case Imm => 0 case W1 => 1 case W2 => 2 case W4 => 4 case W8 => 8
    }

    /** The low five bits of the initial byte. */
    function Info(n: nat): nat {
      match this case Imm => n case W1 => 24 case W2 => 25 case W4 => 26 case W8 => 27
    }

    predicate Fits(n: nat) {
      if Imm? then n < 24 else n < Pow256(Extra())
    }
  }

  const BREAK: byte := 0xff
  const NULL: byte := 0xf6

  /** A head of major type `major` carrying `n`, in the chosen width. */
  function Head(major: nat, w: Width, n: nat): (b: bytes)
    requires major < 8 && w.Fits(n)
    ensures |b| == 1 + w.Extra()
    ensures b[0] == 32 * major + w.Info(n)
  {
    [32 * major + w.Info(n)] + BigEndian(n, w.Extra())
  }

  /** The shortest width that holds `n`. */
  function Preferred(n: nat): (w: Width)
    requires n <= U64_MAX
    ensures w.Fits(n)
    ensures forall v: Width :: v.Fits(n) ==> w.Extra() <= v.Extra()
  {
    Pow256Values();
    if n < 24 then Imm
    else if n < 0x100 then W1
    else if n < 0x1_0000 then W2
    else if n < 0x1_0000_0000 then W4
    else W8
  }
}
