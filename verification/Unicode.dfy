/** UTF-8 by the scalar values it encodes (section 3 of RFC 3629), against the byte test of the decoder. */
module Unicode {
  import opened Wire
  import opened Items

  /** A code point other than a surrogate. */
  predicate IsScalar(c: nat) {
    c <= 0x10FFFF && !(0xD800 <= c <= 0xDFFF)
  }

  /** The bytes of one scalar value. */
  function ScalarBytes(c: nat): bytes
    requires c <= 0x10FFFF
  {
    if c < 0x80 then [c]
    else if c < 0x800 then [0xC0 + c / 0x40, 0x80 + c % 0x40]
    else if c < 0x1_0000 then [0xE0 + c / 0x1000, 0x80 + c / 0x40 % 0x40, 0x80 + c % 0x40]
    else [0xF0 + c / 0x4_0000, 0x80 + c / 0x1000 % 0x40, 0x80 + c / 0x40 % 0x40, 0x80 + c % 0x40]
  }

  predicate AllScalars(cs: seq<nat>) {
    forall i :: 0 <= i < |cs| ==> IsScalar(cs[i])
  }

  function TextBytes(cs: seq<nat>): bytes
    requires AllScalars(cs)
  {
    if cs == [] then [] else ScalarBytes(cs[0]) + TextBytes(cs[1..])
  }

  /** How many bytes the first scalar value of a text takes. */
  function Width(s: bytes): nat
    requires s != []
  {
    if s[0] < 0x80 then 1 else if s[0] < 0xE0 then 2 else if s[0] < 0xF0 then 3 else 4
  }

  /** The byte test, one scalar value at a time. */
  predicate StartsWell(s: bytes) {
    s != [] && |s| >= Width(s)
    && match Width(s)
       case 1 => true
       case 2 => 0xC2 <= s[0] && Tail(s[1])
       case 3 => Tail(s[1]) && Tail(s[2]) && (s[0] == 0xE0 ==> s[1] >= 0xA0) && (s[0] == 0xED ==> s[1] < 0xA0)
       case _ =>
         s[0] <= 0xF4 && Tail(s[1]) && Tail(s[2]) && Tail(s[3])
         && (s[0] == 0xF0 ==> s[1] >= 0x90) && (s[0] == 0xF4 ==> s[1] < 0x90)
  }

  lemma {:induction false} Utf8Step(s: bytes)
    requires s != []
    ensures Utf8(s) <==> StartsWell(s) && Utf8(s[Width(s)..])
  {
  }

  /** The number that groups of six bits stand for. */
  function Two(a: nat, b: nat): nat { a * 0x40 + b }
  function Three(a: nat, b: nat, c: nat): nat { Two(a, b) * 0x40 + c }
  function Four(a: nat, b: nat, c: nat, d: nat): nat { Three(a, b, c) * 0x40 + d }

  function Decoded(s: bytes): nat
    requires StartsWell(s)
  {
    match Width(s)
    case 1 => s[0]
    case 2 => Two(s[0] - 0xC0, s[1] - 0x80)
    case 3 => Three(s[0] - 0xE0, s[1] - 0x80, s[2] - 0x80)
    case _ => Four(s[0] - 0xF0, s[1] - 0x80, s[2] - 0x80, s[3] - 0x80)
  }

  /** The first bytes of a text that passes are those of one scalar value. */
  lemma {:induction false} DecodedScalar(s: bytes)
    requires StartsWell(s)
    ensures IsScalar(Decoded(s)) && ScalarBytes(Decoded(s)) == s[..Width(s)]
  {
    hide Two, Three, Four, ScalarBytes;
    match Width(s)
    case 1 =>
      OneByte(s[0]);
      assert s[..1] == [s[0]];
    case 2 =>
      TwoBytes(s[0] - 0xC0, s[1] - 0x80);
      assert s[..2] == [s[0], s[1]];
    case 3 =>
      ThreeBytes(s[0] - 0xE0, s[1] - 0x80, s[2] - 0x80);
      assert s[..3] == [s[0], s[1], s[2]];
    case _ =>
      FourBytes(s[0] - 0xF0, s[1] - 0x80, s[2] - 0x80, s[3] - 0x80);
      assert s[..4] == [s[0], s[1], s[2], s[3]];
  }

  lemma {:induction false} OneByte(c: nat)
    requires c < 0x80
    ensures IsScalar(c) && ScalarBytes(c) == [c]
  {
  }

  lemma {:induction false} TwoBytes(a: nat, b: nat)
    requires 2 <= a < 0x20 && b < 0x40
    ensures IsScalar(Two(a, b)) && ScalarBytes(Two(a, b)) == [0xC0 + a, 0x80 + b]
  {
    Digits(a, b);
  }

  lemma {:induction false} ThreeBytes(a: nat, b: nat, c: nat)
    requires a < 0x10 && b < 0x40 && c < 0x40 && (a == 0 ==> b >= 0x20) && (a == 0xD ==> b < 0x20)
    ensures IsScalar(Three(a, b, c)) && ScalarBytes(Three(a, b, c)) == [0xE0 + a, 0x80 + b, 0x80 + c]
  {
    Digits(Two(a, b), c);
    Digits(a, b);
    Thousands(Three(a, b, c));
  }

  lemma {:induction false} FourBytes(a: nat, b: nat, c: nat, d: nat)
    requires a <= 4 && b < 0x40 && c < 0x40 && d < 0x40 && (a == 0 ==> b >= 0x10) && (a == 4 ==> b < 0x10)
    ensures IsScalar(Four(a, b, c, d))
    ensures ScalarBytes(Four(a, b, c, d)) == [0xF0 + a, 0x80 + b, 0x80 + c, 0x80 + d]
  {
    Digits(Three(a, b, c), d);
    Digits(Two(a, b), c);
    Digits(a, b);
    Thousands(Four(a, b, c, d));
  }

  lemma {:induction false} Digits(high: nat, low: nat)
    requires low < 0x40
    ensures (high * 0x40 + low) / 0x40 == high && (high * 0x40 + low) % 0x40 == low
  {
  }

  lemma {:induction false} Thousands(c: nat)
    ensures c / 0x1000 == c / 0x40 / 0x40 && c / 0x4_0000 == c / 0x40 / 0x40 / 0x40
  {
  }

  /** The bytes of a scalar value pass, whatever follows them, and are told from it. */
  lemma {:induction false} ScalarPasses(c: nat, rest: bytes)
    requires IsScalar(c)
    ensures var s := ScalarBytes(c) + rest;
            StartsWell(s) && Width(s) == |ScalarBytes(c)| && s[Width(s)..] == rest
  {
    var s := ScalarBytes(c) + rest;
    Thousands(c);
    assert forall i :: 0 <= i < |ScalarBytes(c)| ==> s[i] == ScalarBytes(c)[i];
  }

  /** Every sequence of scalar values is encoded as text that passes. */
  lemma {:induction false} TextPasses(cs: seq<nat>)
    requires AllScalars(cs)
    ensures Utf8(TextBytes(cs))
  {
    hide Utf8, ScalarBytes;
    if cs == [] {
      EmptyPasses();
    } else {
      var s := TextBytes(cs);
      TextPasses(cs[1..]);
      ScalarPasses(cs[0], TextBytes(cs[1..]));
      Utf8Step(s);
    }
  }

  lemma {:induction false} EmptyPasses()
    ensures Utf8([])
  {
  }

  /** And every text that passes is the encoding of scalar values. */
  lemma {:induction false} PassesAreText(s: bytes) returns (cs: seq<nat>)
    requires Utf8(s)
    ensures AllScalars(cs) && TextBytes(cs) == s
  {
    hide Utf8, ScalarBytes, StartsWell;
    if s == [] {
      cs := [];
    } else {
      Utf8Step(s);
      DecodedScalar(s);
      WidthFits(s);
      var rest := PassesAreText(s[Width(s)..]);
      cs := [Decoded(s)] + rest;
      assert cs[0] == Decoded(s) && cs[1..] == rest;
      assert s == s[..Width(s)] + s[Width(s)..];
    }
  }

  lemma {:induction false} WidthFits(s: bytes)
    requires StartsWell(s)
    ensures 1 <= Width(s) <= |s|
  {
  }

  /** Text is what encodes a sequence of Unicode scalar values. */
  lemma {:induction false} Utf8Exactly(s: bytes)
    ensures Utf8(s) <==> exists cs: seq<nat> :: AllScalars(cs) && TextBytes(cs) == s
  {
    hide Utf8, TextBytes;
    if Utf8(s) {
      var cs := PassesAreText(s);
      assert AllScalars(cs);
    }
    if cs: seq<nat> :| AllScalars(cs) && TextBytes(cs) == s {
      TextPasses(cs);
    }
  }
}
