/** The decoder as an object: an input and a position that every reader advances. */
module Decoding {
  import opened Wire
  import opened Items
  import opened Reads
  import opened Skip
  import opened SkipOnAnyInput

  class Decoder {
    const buf: bytes
    var pos: nat

    constructor (input: bytes)
      ensures buf == input && pos == 0
    {
      buf, pos := input, 0;
    }

    method Read() returns (r: Res<byte>)
      modifies this`pos
      ensures r == ReadAt(buf, old(pos)) && pos == r.pos
    {
      if pos < |buf| {
        pos := pos + 1;
        return Ok(buf[pos - 1], pos);
      }
      return Err(EndOfInput, pos);
    }

    method ReadSlice(n: nat) returns (r: Res<bytes>)
      modifies this`pos
      ensures r == SliceAt(buf, old(pos), n) && pos == r.pos
    {
      if pos + n <= |buf| {
        r := Ok(buf[pos..pos + n], pos + n);
        pos := pos + n;
      } else {
        r := Err(EndOfInput, pos);
      }
    }

    method Unsigned(info: byte) returns (r: Res<nat>)
      requires info < 32
      modifies this`pos
      ensures r == UnsignedAt(buf, old(pos), info) && pos == r.pos
    {
      if info < 24 {
        return Ok(info, pos);
      }
      if info > 27 {
        return Mismatch(buf, pos, info);
      }
      var b := ReadSlice(if info == 24 then 1 else if info == 25 then 2 else if info == 26 then 4 else 8);
      r := MapRes(b, a => FromBigEndian(a));
    }

    /** `u64`, `tag` and the heads `skip` reads for their argument only. */
    method Argument(major: nat) returns (r: Res<nat>)
      modifies this`pos
      ensures r == ArgumentAt(buf, old(pos), major) && pos == r.pos
    {
      var b := Read();
      if b.Err? {
        return Err(b.error, b.pos);
      }
      if b.value / 32 != major {
        return Mismatch(buf, pos, b.value);
      }
      r := Unsigned(b.value % 32);
    }

    /** `array` and `map`. */
    method Length(major: nat) returns (r: Res<Option<nat>>)
      modifies this`pos
      ensures r == LengthAt(buf, old(pos), major) && pos == r.pos
    {
      var b := Read();
      if b.Err? {
        return Err(b.error, b.pos);
      }
      if b.value / 32 != major {
        return Mismatch(buf, pos, b.value);
      }
      if b.value % 32 == 31 {
        return Ok(None, pos);
      }
      var n := Unsigned(b.value % 32);
      r := MapRes(n, k => Some(k));
    }

    /** `null` and `undefined`. */
    method Exactly(want: byte) returns (r: Res<()>)
      modifies this`pos
      ensures r == ExactlyAt(buf, old(pos), want) && pos == r.pos
    {
      var b := Read();
      if b.Err? {
        return Err(b.error, b.pos);
      }
      r := if b.value == want then Ok((), pos) else Mismatch(buf, pos, b.value);
    }

    method Bool() returns (r: Res<bool>)
      modifies this`pos
      ensures r == BoolAt(buf, old(pos)) && pos == r.pos
    {
      var b := Read();
      if b.Err? {
        return Err(b.error, b.pos);
      }
      match b.value
      case 0xf4 => r := Ok(false, pos);
      case 0xf5 => r := Ok(true, pos);
      case _ => r := Mismatch(buf, pos, b.value);
    }

    method SimpleValue() returns (r: Res<byte>)
      modifies this`pos
      ensures r == SimpleAt(buf, old(pos)) && pos == r.pos
    {
      var b := Read();
      if b.Err? {
        return Err(b.error, b.pos);
      }
      if 0xe0 <= b.value <= 0xf3 {
        r := Ok(b.value - 0xe0, pos);
      } else if b.value == 0xf8 {
        r := Read();
      } else {
        r := Mismatch(buf, pos, b.value);
      }
    }

    /** `f16`, `f32` and `f64`; each falls back on the one before it. */
    method FloatValue(w: Width) returns (r: Res<Float>)
      requires w == W2 || w == W4 || w == W8
      modifies this`pos
      ensures r == FloatAt(buf, old(pos), w) && pos == r.pos
      decreases w.Extra()
    {
      hide TypeOf, FromBigEndian;
      if pos >= |buf| {
        return Err(EndOfInput, pos);
      }
      var b := buf[pos];
      if w == W8 && (b == 0xf9 || b == 0xfa) {
        r := FloatValue(if b == 0xf9 then W2 else W4);
        return;
      }
      if w == W4 && b == 0xf9 {
        r := FloatValue(W2);
        return;
      }
      var own := if w == W2 then 0xf9 else if w == W4 then 0xfa else 0xfb;
      if b != own {
        pos := if w == W2 then pos + 1 else pos;
        return Mismatch(buf, pos, b);
      }
      pos := pos + 1;
      var bits := ReadSlice(w.Extra());
      r := MapRes(bits, a => Float(w, FromBigEndian(a)));
    }

    /** `bytes` and `str`. */
    method Definite(text: bool) returns (r: Res<bytes>)
      modifies this`pos
      ensures r == DefiniteAt(buf, old(pos), text) && pos == r.pos
    {
      var b := Read();
      if b.Err? {
        return Err(b.error, b.pos);
      }
      if b.value / 32 != StrMajor(text) || b.value % 32 == 31 {
        return Mismatch(buf, pos, b.value);
      }
      var n := Unsigned(b.value % 32);
      if n.Err? {
        return Err(n.error, n.pos);
      }
      var d := ReadSlice(n.value);
      r := CheckText(text, d);
    }

    /** `bytes_iter` and `str_iter` with the loop over their chunks. */
    method Strings(text: bool) returns (r: Res<seq<bytes>>)
      modifies this`pos
      ensures r == StringsAt(buf, old(pos), text) && pos == r.pos
    {
      var b := Read();
      if b.Err? {
        return Err(b.error, b.pos);
      }
      if b.value / 32 != StrMajor(text) {
        return Mismatch(buf, pos, b.value);
      }
      if b.value % 32 == 31 {
        r := Chunks(text);
        return;
      }
      var n := Unsigned(b.value % 32);
      if n.Err? {
        return Err(n.error, n.pos);
      }
      var d := ReadSlice(n.value);
      r := MapRes(CheckText(text, d), c => [c]);
    }

    method Chunks(text: bool) returns (r: Res<seq<bytes>>)
      modifies this`pos
      ensures r == ChunksAt(buf, old(pos), text) && pos == r.pos
    {
      hide DefiniteAt;
      var got: seq<bytes> := [];
      PrependTwice([], [], ChunksAt(buf, pos, text));
      while pos < |buf| && buf[pos] != BREAK
        invariant ChunksAt(buf, old(pos), text) == Prepend(got, ChunksAt(buf, pos, text))
        decreases |buf| - pos
      {
        var c := Definite(text);
        if c.Err? {
          return Err(c.error, c.pos);
        }
        PrependTwice(got, [c.value], ChunksAt(buf, pos, text));
        got := got + [c.value];
      }
      if pos >= |buf| {
        return Err(EndOfInput, pos);
      }
      assert got + [] == got;
      pos := pos + 1;
      r := Ok(got, pos);
    }

    // ----- skipping -----

    /** The byte dispatch of the skip loop: read what is at the position and say what it was. */
    method NextEvent() returns (r: Res<Event>)
      modifies this`pos
      ensures r == EventAt(buf, old(pos)) && pos == r.pos
    {
      hide StringsAt, UnsignedAt, TypeOf;
      if pos >= |buf| {
        return Err(EndOfInput, pos);
      }
      var b := buf[pos];
      if b <= 0x1b || 0x20 <= b <= 0x3b || 0xe0 <= b <= 0xfb {
        var n := Argument(b / 32);
        r := MapRes(n, _ => Leaf);
      } else if 0x40 <= b <= 0x7f {
        var c := Strings(b >= 0x60);
        r := MapRes(c, _ => Leaf);
      } else if 0x80 <= b <= 0xbf {
        var n := Length(b / 32);
        r := MapRes(n, k => Open(OpenCount(b >= 0xa0, k)));
      } else if 0xc0 <= b <= 0xdb {
        var n := Argument(6);
        r := MapRes(n, _ => TagHead);
      } else if b == BREAK {
        pos := pos + 1;
        r := Ok(Close, pos);
      } else {
        r := Mismatch(buf, pos, b);
      }
    }

    /** Skip one item, with a stack for indefinite containers inside definite ones. */
    method Skip() returns (r: Res<()>)
      modifies this`pos
      ensures r == SkipAt(buf, old(pos)) && pos == r.pos
      ensures |buf| <= U64_MAX ==>
        forall x | Valid(x) && At(buf, old(pos), Encode(x)) :: r == Ok((), old(pos) + |Encode(x)|)
    {
      hide EventAt, Encode, Valid, At, PopZeros, Nones;
      if |buf| <= U64_MAX {
        forall x | Valid(x) && At(buf, pos, Encode(x))
          ensures SkipAt(buf, pos) == Ok((), pos + |Encode(x)|)
        {
          SkipsItem(buf, pos, x);
        }
      }
      var nrounds, irounds, stack: Stack := 1, 0, [];
      while nrounds > 0 || irounds > 0 || stack != []
        invariant Run(buf, pos, State(nrounds, irounds, stack)) == SkipAt(buf, old(pos))
        decreases |buf| - pos
      {
        var ev := NextEvent();
        if ev.Err? {
          return Err(ev.error, ev.pos);
        }
        if ev.value == TagHead {
          continue;
        }
        if ev.value.Open? {
          nrounds, irounds, stack := OnOpen(nrounds, irounds, stack, ev.value.count);
        } else if ev.value == Close {
          if nrounds == 0 && irounds == 0 {
            if stack != [] && stack[|stack| - 1] == None {
              stack := stack[..|stack| - 1];
            }
          } else {
            irounds := Dec(irounds);
          }
        }
        if nrounds == 0 && irounds == 0 {
          stack := CountItem(stack);
          if stack == [] {
            break;
          }
        } else {
          nrounds := Dec(nrounds);
        }
      }
      r := Ok((), pos);
    }

    /** Skip one item with two counters only. */
    method SkipNoAlloc() returns (r: Res<()>)
      modifies this`pos
      ensures r == SkipNoAllocAt(buf, old(pos)) && pos == r.pos
      ensures r == SkipAt(buf, old(pos)) || (r.Err? && r.error == NeedsAlloc)
      ensures |buf| <= U64_MAX ==>
        forall x | Valid(x) && At(buf, old(pos), Encode(x)) ::
          if Stackless(x, 1) then r == Ok((), old(pos) + |Encode(x)|) else r.Err? && r.error == NeedsAlloc
    {
      hide EventAt, Encode, Valid, At, Stackless;
      NoAllocAgrees(buf, pos);
      if |buf| <= U64_MAX {
        forall x | Valid(x) && At(buf, pos, Encode(x))
          ensures if Stackless(x, 1) then SkipNoAllocAt(buf, pos) == Ok((), pos + |Encode(x)|)
                  else SkipNoAllocAt(buf, pos).Err? && SkipNoAllocAt(buf, pos).error == NeedsAlloc
        {
          NoAllocSkipsExactly(buf, pos, x);
        }
      }
      var nrounds: nat, irounds: nat := 1, 0;
      while nrounds > 0 || irounds > 0
        invariant RunNoAlloc(buf, pos, nrounds, irounds) == SkipNoAllocAt(buf, old(pos))
        decreases |buf| - pos
      {
        var ev := NextEvent();
        match ev {
        case Err(e, p) => return Err(e, p);
        case Ok(TagHead, _) => continue;
        case Ok(Leaf, _) =>
        case Ok(Open(Some(k)), _) => nrounds := SatAdd(nrounds, k);
        case Ok(Open(None), _) =>
          if nrounds >= 2 {
            return Err(NeedsAlloc, pos);
          }
          irounds := SatAdd(irounds, 1);
        case Ok(Close, _) => irounds := Dec(irounds);
        }
        nrounds := Dec(nrounds);
      }
      r := Ok((), pos);
    }
  }

  /** What the head of a container does to the counters and the stack. */
  method OnOpen(nrounds: nat, irounds: nat, stack: Stack, count: Option<nat>) returns (n: nat, i: nat, st: Stack)
    ensures Settle(State(n, i, st)) == Advance(State(nrounds, irounds, stack), Open(count))
  {
    hide PopZeros;
    n, i, st := nrounds, irounds, stack;
    match count
    case Some(k) =>
      if k == 0 {
      } else if n == 0 && i == 0 {
        st := st + [Some(k)];
      } else {
        n := SatAdd(n, k);
      }
    case None =>
      if n == 0 && i == 0 {
        st := st + [None];
      } else if n < 2 {
        i := SatAdd(i, 1);
      } else {
        for j := 0 to i
          invariant st == stack + Nones(j)
        {
          assert (stack + Nones(j)) + [None] == stack + (Nones(j) + [None]);
          st := st + [None];
        }
        st := st + [Some(n - 1)];
        st := st + [None];
        n, i := 0, 0;
      }
  }

  /** Close the containers an item has finished and count it in the one that remains. */
  method CountItem(stack: Stack) returns (st: Stack)
    ensures st == CountDown(stack)
  {
    st := stack;
    while st != [] && st[|st| - 1] == Some(0)
      invariant PopZeros(st) == PopZeros(stack)
    {
      st := st[..|st| - 1];
    }
    if st != [] && st[|st| - 1].Some? {
      st := st[|st| - 1 := Some(st[|st| - 1].value - 1)];
    }
  }
}
