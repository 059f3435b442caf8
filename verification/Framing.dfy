/**
  CBOR values on a byte stream, each behind a 32-bit length. The asynchronous reader and writer keep their
  progress in a state field, so that a call abandoned at an await can be taken up again.
 */
module Framing {
  import opened Wire

  const U32_MAX: nat := 0xFFFF_FFFF

  function Framed(payload: bytes): bytes {
    BigEndian(|payload|, 4) + payload
  }

  function Stream(payloads: seq<bytes>): bytes {
    if payloads == [] then [] else Framed(payloads[0]) + Stream(payloads[1..])
  }

  /** What the next read on a stream with these bytes left comes to. */
  datatype Outcome = Frame(payload: bytes) | End | Truncated | TooLong

  function NextFrame(u: bytes, maxLen: nat): Outcome {
    if u == [] then End
    else if |u| < 4 then Truncated
    else if FromBigEndian(u[..4]) > maxLen then TooLong
    else if |u| < 4 + FromBigEndian(u[..4]) then Truncated
    else Frame(u[4..4 + FromBigEndian(u[..4])])
  }

  function AfterFrame(u: bytes, maxLen: nat): bytes {
    match NextFrame(u, maxLen)
    case Frame(p) => u[4 + |p|..]
    case _ => u
  }

  /** Where the blocking reader stands next: past a frame or a header it refused, and else at the end. */
  function AfterBlocking(u: bytes, maxLen: nat): bytes {
    match NextFrame(u, maxLen)
    case Frame(p) => u[4 + |p|..]
    case TooLong => u[4..]
    case _ => []
  }

  /** All frames up to the end of the stream or the first error. */
  function Frames(u: bytes, maxLen: nat): seq<bytes>
    decreases |u|
  {
    match NextFrame(u, maxLen)
    case Frame(p) => [p] + Frames(u[4 + |p|..], maxLen)
    case _ => []
  }

  lemma {:induction false} FirstFrame(u: bytes, maxLen: nat)
    ensures var fs := Frames(u, maxLen);
            if NextFrame(u, maxLen).Frame?
            then fs != [] && fs[0] == NextFrame(u, maxLen).payload && fs[1..] == Frames(AfterFrame(u, maxLen), maxLen)
            else fs == [] && AfterFrame(u, maxLen) == u
  {
  }

  lemma {:induction false} FramedReads(payload: bytes, rest: bytes, maxLen: nat)
    requires |payload| <= maxLen && |payload| <= U32_MAX
    ensures NextFrame(Framed(payload) + rest, maxLen) == Frame(payload)
    ensures AfterFrame(Framed(payload) + rest, maxLen) == rest
  {
    var u, h := Framed(payload) + rest, BigEndian(|payload|, 4);
    Pow256Values();
    BigEndianRoundTrip(|payload|, 4);
    assert u[..4] == h && u[4..4 + |payload|] == payload && u[4 + |payload|..] == rest;
  }

  lemma {:induction false} HeaderReads(header: bytes, rest: bytes, maxLen: nat)
    requires |header| == 4
    ensures FromBigEndian(header) <= U32_MAX && BigEndian(FromBigEndian(header), 4) == header
    ensures FromBigEndian(header) > maxLen ==>
      NextFrame(header + rest, maxLen) == TooLong && AfterFrame(header + rest, maxLen) == header + rest
  {
    Pow256Values();
    FromBigEndianRoundTrip(header);
    assert (header + rest)[..4] == header;
  }

  lemma {:induction false} CutPayload(len: nat, part: bytes, maxLen: nat)
    requires |part| < len <= maxLen && len <= U32_MAX
    ensures NextFrame(BigEndian(len, 4) + part, maxLen) == Truncated
  {
    Pow256Values();
    BigEndianRoundTrip(len, 4);
    assert (BigEndian(len, 4) + part)[..4] == BigEndian(len, 4);
  }

  /** A frame cut anywhere is reported as such, and not as the end. */
  lemma {:induction false} CutFrame(payload: bytes, k: nat, maxLen: nat)
    requires |payload| <= maxLen && |payload| <= U32_MAX && 0 < k < |Framed(payload)|
    ensures NextFrame(Framed(payload)[..k], maxLen) == Truncated
  {
    hide BigEndian, FromBigEndian;
    var h := BigEndian(|payload|, 4);
    if k >= 4 {
      assert Framed(payload)[..k] == h + payload[..k - 4];
      CutPayload(|payload|, payload[..k - 4], maxLen);
    }
  }

  /** A stream of frames is read back as the same payloads, ending on a frame boundary. */
  lemma {:induction false} StreamReadsBack(payloads: seq<bytes>, maxLen: nat)
    requires forall i :: 0 <= i < |payloads| ==> |payloads[i]| <= maxLen && |payloads[i]| <= U32_MAX
    ensures Frames(Stream(payloads), maxLen) == payloads
  {
    if payloads != [] {
      FramedReads(payloads[0], Stream(payloads[1..]), maxLen);
      StreamReadsBack(payloads[1..], maxLen);
    }
  }

  lemma {:induction false} StreamConcat(a: seq<bytes>, b: seq<bytes>)
    ensures Stream(a + b) == Stream(a) + Stream(b)
  {
    if a == [] {
      assert a + b == b;
    } else {
      StreamConcat(a[1..], b);
      assert (a + b)[1..] == a[1..] + b && (a + b)[0] == a[0];
    }
  }

  /** What the transport answers to one poll: nothing yet, an error, or up to `n` bytes moved. */
  datatype Poll = Pending | Failed | Ready(n: nat)

  /** How many polls are answered before the first that is not: where a call is abandoned or fails, if it gets there. */
  function Answered(polls: seq<Poll>): (n: nat)
    ensures n <= |polls| && (n < |polls| ==> !polls[n].Ready?)
  {
    if polls == [] || !polls[0].Ready? then 0 else 1 + Answered(polls[1..])
  }

  lemma {:induction false} AnsweredUpTo(polls: seq<Poll>, i: nat)
    requires i <= |polls| && (i < |polls| ==> !polls[i].Ready?) && forall j :: 0 <= j < i ==> polls[j].Ready?
    ensures Answered(polls) == i
  {
    if i > 0 {
      AnsweredUpTo(polls[1..], i - 1);
    }
  }

  /** How many calls have at least `n` polls answered. */
  function Answers(calls: seq<seq<Poll>>, n: nat): nat {
    if calls == [] then 0
    else Answers(calls[..|calls| - 1], n) + if Answered(calls[|calls| - 1]) >= n then 1 else 0
  }

  /** How many polls move something before the first that does not. */
  function Taken(polls: seq<Poll>): (n: nat)
    ensures n <= |polls|
  {
    if polls == [] || !polls[0].Ready? || polls[0].n == 0 then 0 else 1 + Taken(polls[1..])
  }

  lemma {:induction false} TakenUpTo(polls: seq<Poll>, i: nat)
    requires i <= |polls| && (i < |polls| ==> !polls[i].Ready? || polls[i].n == 0)
    requires forall j :: 0 <= j < i ==> polls[j].Ready? && polls[j].n > 0
    ensures Taken(polls) == i
  {
    if i > 0 {
      TakenUpTo(polls[1..], i - 1);
    }
  }

  /** The same, added up over several attempts. */
  function TakenInAll(attempts: seq<seq<Poll>>): nat {
    if attempts == [] then 0 else TakenInAll(attempts[..|attempts| - 1]) + Taken(attempts[|attempts| - 1])
  }

  /** How many polls are answered. */
  function Readies(polls: seq<Poll>): nat {
    if polls == [] then 0
    else Readies(polls[..|polls| - 1]) + if polls[|polls| - 1].Ready? then 1 else 0
  }

  lemma {:induction false} ReadiesSplit(polls: seq<Poll>, i: nat, j: nat)
    requires i <= j <= |polls|
    ensures Readies(polls[i..]) == Readies(polls[i..j]) + Readies(polls[j..])
    decreases |polls|
  {
    var k := |polls| - 1;
    if j == |polls| {
      assert polls[i..j] == polls[i..] && polls[j..] == [];
    } else {
      ReadiesSplit(polls[..k], i, j);
      assert polls[i..][..k - i] == polls[..k][i..] && polls[j..][..k - j] == polls[..k][j..];
      assert polls[i..j] == polls[..k][i..j];
    }
  }

  lemma {:induction false} ReadiesNext(polls: seq<Poll>, i: nat, j: nat)
    requires i <= j < |polls|
    ensures Readies(polls[i..j + 1]) == Readies(polls[i..j]) + if polls[j].Ready? then 1 else 0
  {
    assert polls[i..j + 1][..j - i] == polls[i..j];
  }

  // ----- reading -----

  datatype ReadState = ReadLen(buf: bytes, o: nat) | ReadVal(o: nat)

  /** The result of one call: a value or an error for the caller, or abandoned at an await. */
  datatype ReadResult<T> = Value(v: T) | BadItem | NoMore | UnexpectedEof | InvalidLen | IoError | Abandoned

  function ResultOf<T>(o: Outcome, decode: bytes -> Option<T>): ReadResult<T> {
    match o
    case Frame(p) => if decode(p).Some? then Value(decode(p).value) else BadItem
    case End => NoMore
    case Truncated => UnexpectedEof
    case TooLong => InvalidLen
  }

  lemma {:induction false} ResultKinds<T>(o: Outcome, decode: bytes -> Option<T>)
    ensures ResultOf(o, decode).Value? || ResultOf(o, decode).BadItem? <==> o.Frame?
    ensures !ResultOf(o, decode).Abandoned? && !ResultOf(o, decode).IoError?
  {
  }

  class AsyncReader {
    const input: bytes
    const maxLen: nat
    var at: nat
    var state: ReadState
    var buffer: bytes

    constructor (input: bytes, maxLen: nat)
      requires maxLen <= U32_MAX
      ensures Valid() && Unread() == input && this.input == input && this.maxLen == maxLen
    {
      this.input, this.maxLen, at, state, buffer := input, maxLen, 0, ReadLen([0, 0, 0, 0], 0), [];
      new;
      assert Unread() == input;
    }

    ghost predicate Valid()
      reads this
    {
      at <= |input| && maxLen <= U32_MAX
      && match state
         case ReadLen(buf, o) => |buf| == 4 && o <= 4
         case ReadVal(o) => o <= |buffer| <= maxLen
    }

    /** The stream from the last frame boundary on: what this reader holds of the frame in progress, then the input. */
    ghost function Unread(): bytes
      requires Valid()
      reads this
    {
      Partial() + input[at..]
    }

    ghost function Partial(): bytes
      requires Valid()
      reads this
    {
      match state
      case ReadLen(buf, o) => buf[..o]
      case ReadVal(o) => BigEndian(|buffer|, 4) + buffer[..o]
    }

    /** How many bytes the transport delivers into room for `room`: none only at the end of the input. */
    method Receive(k: nat, room: nat) returns (got: bytes)
      requires at <= |input| && room > 0
      modifies this`at
      ensures at == old(at) + |got| <= |input| && got == input[old(at)..at] && |got| <= room
      ensures got == [] <==> old(at) == |input|
    {
      var n := if k == 0 then 1 else k;
      n := if n > room then room else n;
      n := if n > |input| - at then |input| - at else n;
      got := input[at..at + n];
      at := at + n;
    }

    /**
      One call, polled with `polls` in turn and abandoned when they run out. Unless it was abandoned or the
      transport failed, it gives what the stream holds next and moves past it; otherwise nothing is lost.
     */
    method ReadWith<T>(polls: seq<Poll>, decode: bytes -> Option<T>) returns (r: ReadResult<T>)
      requires Valid()
      modifies this
      ensures Valid()
      ensures r.Abandoned? || r.IoError? ==> Unread() == old(Unread())
      ensures at >= old(at) && (r.Abandoned? || r.IoError? ==> at >= old(at) + Answered(polls))
      ensures r.Abandoned? ==> Answered(polls) == |polls| || polls[Answered(polls)].Pending?
      ensures r.IoError? ==> Answered(polls) < |polls| && polls[Answered(polls)].Failed?
      ensures !r.Abandoned? && !r.IoError? ==>
        r == ResultOf(NextFrame(old(Unread()), maxLen), decode) && Unread() == AfterFrame(old(Unread()), maxLen)
    {
      hide FromBigEndian, BigEndian, NextFrame, AfterFrame, Answered;
      var i := 0;
      while true
        invariant i <= |polls| && Valid() && Unread() == old(Unread()) && at >= old(at) + i
        invariant forall j :: 0 <= j < i ==> polls[j].Ready?
        decreases |polls| - i, state.ReadLen?
      {
        if state.ReadLen? && state.o == 4 {
          var len := FromBigEndian(state.buf);
          HeaderReads(state.buf, input[at..], maxLen);
          assert state.buf[..4] == state.buf;
          if len > maxLen {
            return InvalidLen;
          }
          assert state.buf + [] == state.buf;
          buffer := seq(len, _ => 0);
          state := ReadVal(0);
        } else if state.ReadVal? && state.o >= |buffer| {
          FramedReads(buffer, input[at..], maxLen);
          assert buffer[..state.o] == buffer;
          state := ReadLen([0, 0, 0, 0], 0);
          assert Unread() == [] + input[at..] == input[at..];
          return if decode(buffer).Some? then Value(decode(buffer).value) else BadItem;
        } else {
          if i == |polls| || !polls[i].Ready? {
            AnsweredUpTo(polls, i);
            return if i < |polls| && polls[i].Failed? then IoError else Abandoned;
          }
          r := ReceiveMore(polls[i].n, decode);
          if !r.Abandoned? {
            return;
          }
          i := i + 1;
        }
      }
    }

    /** One read from the transport into the header or the payload; `Abandoned` here means go on. */
    method ReceiveMore<T>(k: nat, decode: bytes -> Option<T>) returns (r: ReadResult<T>)
      requires Valid() && (if state.ReadLen? then state.o < 4 else state.o < |buffer|)
      modifies this
      ensures Valid() && Unread() == old(Unread()) && state.ReadLen? == old(state.ReadLen?)
      ensures !r.IoError? && at >= old(at) && (r.Abandoned? ==> at > old(at))
      ensures r.Abandoned?
        || (r == ResultOf(NextFrame(old(Unread()), maxLen), decode)
          && AfterFrame(old(Unread()), maxLen) == old(Unread()))
    {
      if state.ReadLen? {
        r := ReceiveLen(k, decode);
      } else {
        r := ReceiveVal(k, decode);
      }
    }

    method ReceiveLen<T>(k: nat, decode: bytes -> Option<T>) returns (r: ReadResult<T>)
      requires Valid() && state.ReadLen? && state.o < 4
      modifies this
      ensures Valid() && Unread() == old(Unread()) && state.ReadLen?
      ensures !r.IoError? && at >= old(at) && (r.Abandoned? ==> at > old(at))
      ensures r.Abandoned?
        || (r == ResultOf(NextFrame(Unread(), maxLen), decode) && AfterFrame(Unread(), maxLen) == Unread())
    {
      r := Abandoned;
      var buf, o := state.buf, state.o;
      var got := Receive(k, 4 - o);
      assert got + input[at..] == input[old(at)..];
      if got == [] {
        r := if o == 0 then NoMore else UnexpectedEof;
      } else {
        assert (buf[..o] + got + buf[o + |got|..])[..o + |got|] == buf[..o] + got;
        state := ReadLen(buf[..o] + got + buf[o + |got|..], o + |got|);
      }
    }

    method ReceiveVal<T>(k: nat, decode: bytes -> Option<T>) returns (r: ReadResult<T>)
      requires Valid() && state.ReadVal? && state.o < |buffer|
      modifies this
      ensures Valid() && Unread() == old(Unread()) && state.ReadVal?
      ensures !r.IoError? && at >= old(at) && (r.Abandoned? ==> at > old(at))
      ensures r.Abandoned?
        || (r == ResultOf(NextFrame(Unread(), maxLen), decode) && AfterFrame(Unread(), maxLen) == Unread())
    {
      hide BigEndian, NextFrame;
      r := Abandoned;
      var o := state.o;
      var got := Receive(k, |buffer| - o);
      if got == [] {
        CutPayload(|buffer|, buffer[..o], maxLen);
        assert Unread() == BigEndian(|buffer|, 4) + buffer[..o];
        r := UnexpectedEof;
      } else {
        GrowPart(BigEndian(|buffer|, 4), buffer, o, got, input, old(at));
        buffer := buffer[..o] + got + buffer[o + |got|..];
        state := ReadVal(o + |got|);
      }
    }

    /**
      Any number of calls, each abandoned or not: the results are those of the frames of the stream, in order. Every
      call that gets an answer from the transport gives a result or moves on in the stream, so enough of them, however
      often they are cancelled, give all the frames and then report the end.
     */
    method ReadMany<T>(calls: seq<seq<Poll>>, decode: bytes -> Option<T>)
      returns (rs: seq<ReadResult<T>>, ended: bool)
      requires Valid()
      modifies this
      ensures Valid() && old(at) <= at
      ensures var fs := Frames(old(Unread()), maxLen);
              |rs| <= |fs| && Frames(Unread(), maxLen) == fs[|rs|..] && (ended ==> |rs| == |fs|)
              && forall i :: 0 <= i < |rs| ==> rs[i] == ResultOf(Frame(fs[i]), decode)
      ensures |rs| + (if ended then 1 else 0) <= |calls|
      ensures !ended ==> Answers(calls, 1) <= |rs| + (at - old(at)) && Answers(calls, |input| + 1) <= |rs|
      ensures var fs := Frames(old(Unread()), maxLen);
              Answers(calls, 1) > |fs| + (|input| - old(at)) ==> ended && |rs| == |fs|
      ensures var fs := Frames(old(Unread()), maxLen);
              Answers(calls, |input| + 1) == |calls| ==>
                |rs| == (if |calls| < |fs| then |calls| else |fs|) && (ended <==> |calls| > |fs|)
    {
      hide Frames, NextFrame, AfterFrame, FromBigEndian, BigEndian, Answers, Answered, ResultOf;
      NoCalls(calls);
      rs, ended := [], false;
      ghost var fs := Frames(Unread(), maxLen);
      for c := 0 to |calls|
        invariant Valid() && |rs| <= |fs| && Frames(Unread(), maxLen) == fs[|rs|..] && old(at) <= at
        invariant forall i :: 0 <= i < |rs| ==> rs[i] == ResultOf(Frame(fs[i]), decode)
        invariant Answers(calls[..c], |input| + 1) <= |rs| <= c
        invariant Answers(calls[..c], 1) <= |rs| + (at - old(at))
      {
        NextCall(calls, c, 1);
        NextCall(calls, c, |input| + 1);
        FirstFrame(Unread(), maxLen);
        ResultKinds(NextFrame(Unread(), maxLen), decode);
        var r := ReadWith(calls[c], decode);
        if r.Value? || r.BadItem? {
          assert fs[|rs|..][0] == fs[|rs|] && fs[|rs|..][1..] == fs[|rs| + 1..];
          rs := rs + [r];
        } else if !r.Abandoned? && !r.IoError? {
          ended := true;
          return;
        }
      }
    }
  }

  lemma {:induction false} NoCalls(calls: seq<seq<Poll>>)
    ensures calls[..|calls|] == calls && forall n :: Answers(calls[..0], n) == 0
  {
  }

  lemma {:induction false} NextCall(calls: seq<seq<Poll>>, c: nat, n: nat)
    requires c < |calls|
    ensures Answers(calls[..c + 1], n) == Answers(calls[..c], n) + if Answered(calls[c]) >= n then 1 else 0
  {
    assert calls[..c + 1][..c] == calls[..c];
  }

  /** Bytes received into a buffer behind its first `o` bytes move from the input to the part already held. */
  lemma {:induction false} GrowPart(header: bytes, buffer: bytes, o: nat, got: bytes, input: bytes, at: nat)
    requires o + |got| <= |buffer| && at + |got| <= |input| && got == input[at..at + |got|]
    ensures var next := buffer[..o] + got + buffer[o + |got|..];
            |next| == |buffer| && header + buffer[..o] + input[at..] == header + next[..o + |got|] + input[at + |got|..]
  {
    var next := buffer[..o] + got + buffer[o + |got|..];
    assert next[..o + |got|] == buffer[..o] + got;
    assert input[at..] == got + input[at + |got|..];
    Regroup(header + buffer[..o], got, input[at + |got|..]);
    Regroup(header, buffer[..o], got);
  }

  /** The blocking reader. It keeps nothing between calls, so what it has read of a broken frame is gone. */
  class Reader {
    const input: bytes
    const maxLen: nat
    var at: nat

    constructor (input: bytes, maxLen: nat)
      ensures at == 0 && this.input == input && this.maxLen == maxLen
    {
      this.input, this.maxLen, at := input, maxLen, 0;
    }

    method Receive(k: nat, room: nat) returns (got: bytes)
      requires at <= |input| && room > 0
      modifies this
      ensures at == old(at) + |got| <= |input| && got == input[old(at)..at] && |got| <= room
      ensures got == [] <==> old(at) == |input|
    {
      var n := if k == 0 then 1 else k;
      n := if n > room then room else n;
      n := if n > |input| - at then |input| - at else n;
      got := input[at..at + n];
      at := at + n;
    }

    /** Fill `want` bytes, retrying interrupted reads; short only at the end of the input, or if it blocks or fails. */
    method Fill(want: nat, polls: seq<Poll>, from: nat) returns (got: bytes, next: nat, stuck: Option<Poll>)
      requires at <= |input| && from <= |polls|
      modifies this
      ensures from <= next <= |polls|
      ensures stuck == None || (stuck == Some(Pending) && next == |polls|) || (stuck == Some(Failed) && Failed in polls)
      ensures stuck.Some? || |got| == want ==> |got| >= Readies(polls[from..next])
      ensures at == old(at) + |got| <= |input| && got == input[old(at)..at] && |got| <= want
      ensures stuck == None && |got| < want ==> at == |input|
    {
      got, next, stuck := [], from, None;
      while |got| < want
        invariant from <= next <= |polls| && stuck == None
        invariant at == old(at) + |got| <= |input| && got == input[old(at)..at] && |got| <= want
        invariant |got| >= Readies(polls[from..next])
        decreases |polls| - next
      {
        if next == |polls| {
          stuck := Some(Pending);
          return;
        }
        ReadiesNext(polls, from, next);
        next := next + 1;
        match polls[next - 1]
        case Pending => // interrupted: try again
        case Failed =>
          stuck := Some(Failed);
          return;
        case Ready(k) =>
          var more := Receive(k, want - |got|);
          if more == [] {
            return;
          }
          assert input[old(at)..at] == got + more;
          got := got + more;
      }
    }

    /** One call. It blocks, which shows here as running out of polls, only if too few of them are answered. */
    method ReadWith<T>(polls: seq<Poll>, decode: bytes -> Option<T>) returns (r: ReadResult<T>)
      requires at <= |input|
      modifies this
      ensures at <= |input|
      ensures r.Abandoned? ==> at >= old(at) + Readies(polls)
      ensures r.IoError? ==> Failed in polls
      ensures r.Abandoned? || r.IoError? ==> old(at) <= at <= |input| - |AfterBlocking(input[old(at)..], maxLen)|
      ensures !r.Abandoned? && !r.IoError? ==>
        r == ResultOf(NextFrame(input[old(at)..], maxLen), decode)
          && input[at..] == AfterBlocking(input[old(at)..], maxLen)
    {
      hide FromBigEndian, Readies, NextFrame, AfterBlocking;
      ghost var u := input[at..];
      assert polls[0..] == polls[0..|polls|] == polls;
      var header, next, stuck := Fill(4, polls, 0);
      ghost var rest := input[at..];
      assert u == header + rest;
      StuckInHeader(header, rest, maxLen);
      if stuck.Some? {
        return if stuck.value.Failed? then IoError else Abandoned;
      }
      if |header| < 4 {
        assert rest == [] && u == header;
        return if header == [] then NoMore else UnexpectedEof;
      }
      var len := FromBigEndian(header);
      if len > maxLen {
        return InvalidLen;
      }
      ReadiesSplit(polls, 0, next);
      ghost var before := next;
      var payload;
      payload, next, stuck := Fill(len, polls, next);
      assert rest == payload + input[at..];
      StuckInPayload(header, payload, input[at..], maxLen);
      if stuck.Some? {
        assert polls[before..|polls|] == polls[before..];
        return if stuck.value.Failed? then IoError else Abandoned;
      }
      if |payload| < len {
        assert input[at..] == [] && rest == payload;
        return UnexpectedEof;
      }
      r := if decode(payload).Some? then Value(decode(payload).value) else BadItem;
    }
  }

  lemma {:induction false} StuckInHeader(header: bytes, rest: bytes, maxLen: nat)
    requires |header| <= 4
    ensures var u := header + rest;
            |AfterBlocking(u, maxLen)| <= |rest|
            && (|header| < 4 && rest == [] ==>
              NextFrame(u, maxLen) == (if header == [] then End else Truncated) && AfterBlocking(u, maxLen) == [])
            && (|header| == 4 && FromBigEndian(header) > maxLen ==>
              NextFrame(u, maxLen) == TooLong && AfterBlocking(u, maxLen) == rest)
  {
    hide FromBigEndian;
    var u := header + rest;
    if |header| == 4 {
      assert u[..4] == header && u[4..] == rest;
    }
  }

  lemma {:induction false} StuckInPayload(header: bytes, part: bytes, rest: bytes, maxLen: nat)
    requires |header| == 4 && |part| <= FromBigEndian(header) <= maxLen
    ensures var u := header + (part + rest);
            |AfterBlocking(u, maxLen)| <= |rest|
            && (|part| == FromBigEndian(header) ==>
              NextFrame(u, maxLen) == Frame(part) && AfterBlocking(u, maxLen) == rest)
            && (|part| < FromBigEndian(header) && rest == [] ==>
              NextFrame(u, maxLen) == Truncated && AfterBlocking(u, maxLen) == [])
  {
    hide FromBigEndian;
    var u := header + (part + rest);
    assert u[..4] == header && u[4..] == part + rest;
    assert u[4..4 + |part|] == part && u[4 + |part|..] == rest;
  }

  // ----- the two readers against each other -----

  /** What is left of a stream after `k` calls of the asynchronous reader, none of them abandoned or failed. */
  function AsyncRest(u: bytes, maxLen: nat, k: nat): bytes
    decreases k
  {
    if k == 0 then u else AsyncRest(AfterFrame(u, maxLen), maxLen, k - 1)
  }

  /** And after `k` calls of the blocking one. */
  function BlockingRest(u: bytes, maxLen: nat, k: nat): bytes
    decreases k
  {
    if k == 0 then u else BlockingRest(AfterBlocking(u, maxLen), maxLen, k - 1)
  }

  /** The two give the same outcome in call `k`, counted from zero. */
  predicate AgreeAt(u: bytes, maxLen: nat, k: nat) {
    NextFrame(AsyncRest(u, maxLen, k), maxLen) == NextFrame(BlockingRest(u, maxLen, k), maxLen)
  }

  lemma {:induction false} SameAfterFrame(u: bytes, maxLen: nat)
    ensures NextFrame(u, maxLen).Frame? ==> AfterFrame(u, maxLen) == AfterBlocking(u, maxLen)
  {
  }

  /** Both give all frames, and the first outcome that is not a frame, from the same place. */
  lemma {:induction false} ReadersAgreeOnFrames(u: bytes, maxLen: nat, k: nat)
    requires k <= |Frames(u, maxLen)|
    ensures AsyncRest(u, maxLen, k) == BlockingRest(u, maxLen, k) && AgreeAt(u, maxLen, k)
    ensures var fs, o := Frames(u, maxLen), NextFrame(AsyncRest(u, maxLen, k), maxLen);
            if k < |fs| then o == Frame(fs[k]) else !o.Frame?
    decreases k
  {
    hide NextFrame, AfterFrame, AfterBlocking, Frames;
    FirstFrame(u, maxLen);
    SameAfterFrame(u, maxLen);
    if k > 0 {
      var fs := Frames(u, maxLen);
      assert k < |fs| ==> fs[k] == fs[1..][k - 1];
      ReadersAgreeOnFrames(AfterFrame(u, maxLen), maxLen, k - 1);
    }
  }

  /** A frame that was read is the beginning of the stream. */
  lemma {:induction false} FrameIsPrefix(u: bytes, maxLen: nat)
    requires NextFrame(u, maxLen).Frame?
    ensures u == Framed(NextFrame(u, maxLen).payload) + AfterFrame(u, maxLen)
  {
    hide BigEndian, FromBigEndian;
    HeaderReads(u[..4], [], maxLen);
  }

  /** The stream is its frames and what is left behind them. */
  lemma {:induction false} StreamAndRest(u: bytes, maxLen: nat)
    ensures u == Stream(Frames(u, maxLen)) + AsyncRest(u, maxLen, |Frames(u, maxLen)|)
    decreases |u|
  {
    hide Framed, NextFrame, AfterFrame;
    FirstFrame(u, maxLen);
    if NextFrame(u, maxLen).Frame? {
      FrameIsPrefix(u, maxLen);
      FrameTakesSpace(u, maxLen);
      StreamAndRest(AfterFrame(u, maxLen), maxLen);
      var p, rest := NextFrame(u, maxLen).payload, AfterFrame(u, maxLen);
      var fs := Frames(rest, maxLen);
      assert Framed(p) + (Stream(fs) + AsyncRest(rest, maxLen, |fs|))
        == Framed(p) + Stream(fs) + AsyncRest(rest, maxLen, |fs|);
    }
  }

  lemma {:induction false} FrameTakesSpace(u: bytes, maxLen: nat)
    requires NextFrame(u, maxLen).Frame?
    ensures |AfterFrame(u, maxLen)| < |u|
  {
  }

  /** At the end of the stream both stay there. */
  lemma {:induction false} BothStayAtEnd(maxLen: nat, k: nat)
    ensures AsyncRest([], maxLen, k) == BlockingRest([], maxLen, k) == []
  {
    if k > 0 {
      BothStayAtEnd(maxLen, k - 1);
    }
  }

  /** In front of a length over the limit, the asynchronous reader stays for good. */
  lemma {:induction false} StaysTooLong(u: bytes, maxLen: nat, k: nat)
    requires NextFrame(u, maxLen) == TooLong
    ensures AsyncRest(u, maxLen, k) == u
  {
    if k > 0 {
      StaysTooLong(u, maxLen, k - 1);
    }
  }

  /** The blocking reader moves on, and comes to something else at the latest when the bytes run out. */
  lemma {:induction false} MovesOn(u: bytes, maxLen: nat) returns (k: nat)
    ensures NextFrame(BlockingRest(u, maxLen, k), maxLen) != TooLong
    decreases |u|
  {
    k := 0;
    if NextFrame(u, maxLen) == TooLong {
      var j := MovesOn(u[4..], maxLen);
      k := j + 1;
    }
  }

  /** Behind the frames of a stream that does not end on a frame boundary, the two come to differ. */
  lemma {:induction false} Diverge(u: bytes, maxLen: nat) returns (k: nat)
    requires u != [] && !NextFrame(u, maxLen).Frame?
    ensures !AgreeAt(u, maxLen, k)
  {
    if NextFrame(u, maxLen) == TooLong {
      k := MovesOn(u, maxLen);
      StaysTooLong(u, maxLen, k);
    } else {
      k := 1;
      assert AsyncRest(u, maxLen, 1) == AsyncRest(u, maxLen, 0) == u;
      assert BlockingRest(u, maxLen, 1) == BlockingRest([], maxLen, 0) == [];
    }
  }

  lemma {:induction false} RestsCompose(u: bytes, maxLen: nat, j: nat, k: nat)
    ensures AsyncRest(u, maxLen, j + k) == AsyncRest(AsyncRest(u, maxLen, j), maxLen, k)
    ensures BlockingRest(u, maxLen, j + k) == BlockingRest(BlockingRest(u, maxLen, j), maxLen, k)
    decreases j
  {
    hide AfterFrame, AfterBlocking;
    if j > 0 {
      RestsCompose(AfterFrame(u, maxLen), maxLen, j - 1, k);
      RestsCompose(AfterBlocking(u, maxLen), maxLen, j - 1, k);
    }
  }

  /**
    However often they are called, the two readers give the same outcomes if and only if the stream ends on a frame
    boundary. Otherwise they agree up to and including the first error, as `ReadersAgreeOnFrames` says, and then part:
    the asynchronous reader stays in front of what it could not read, the blocking one has gone past it.
   */
  lemma {:induction false} ReadersAgreeExactly(u: bytes, maxLen: nat)
    ensures (forall k: nat :: AgreeAt(u, maxLen, k)) <==> u == Stream(Frames(u, maxLen))
  {
    hide Frames, Stream, NextFrame, AsyncRest, BlockingRest;
    var fs := Frames(u, maxLen);
    var n, rest := |fs|, AsyncRest(u, maxLen, |fs|);
    ReadersAgreeOnFrames(u, maxLen, n);
    StreamAndRest(u, maxLen);
    if rest == [] {
      assert u == Stream(fs) + [] == Stream(fs);
      forall k: nat ensures AgreeAt(u, maxLen, k) {
        if k <= n {
          ReadersAgreeOnFrames(u, maxLen, k);
        } else {
          RestsCompose(u, maxLen, n, k - n);
          BothStayAtEnd(maxLen, k - n);
        }
      }
    } else {
      assert u != Stream(fs);
      var k := Diverge(rest, maxLen);
      RestsCompose(u, maxLen, n, k);
      assert !AgreeAt(u, maxLen, n + k);
    }
  }

  // ----- writing -----

  datatype WriteState = Quiet | WriteFrom(o: nat)

  datatype WriteResult = Written(n: nat) | Rejected | EncodeFailed | WriteZero | WriteError | Suspended

  class AsyncWriter {
    const maxLen: nat
    var written: bytes
    var state: WriteState
    var buffer: bytes

    constructor (maxLen: nat)
      requires maxLen <= U32_MAX
      ensures Valid() && written == Owed() == [] && this.maxLen == maxLen
    {
      this.maxLen, written, state, buffer := maxLen, [], Quiet, [];
    }

    ghost predicate Valid()
      reads this
    {
      maxLen <= U32_MAX
    }

    /** Bytes of a started transfer that have not reached the transport yet. */
    ghost function Owed(): bytes
      reads this
    {
      OwedFrom(state, buffer)
    }

    /** The transport takes `n` of the owed bytes. */
    method HandOver(n: nat)
      requires state.WriteFrom? && state.o + n <= |buffer|
      modifies this`written, this`state
      ensures state == WriteFrom(old(state.o) + n) && written + Owed() == old(written + Owed())
      ensures |written| == |old(written)| + n && |Owed()| + n == |old(Owed())|
    {
      var o := state.o;
      Moved(written, buffer, o, n);
      written := written + buffer[o..o + n];
      state := WriteFrom(o + n);
    }

    /** Hand owed bytes over, polled in turn; nothing is lost or repeated, whenever it is abandoned. */
    method Sync(polls: seq<Poll>) returns (r: WriteResult)
      requires Valid()
      modifies this`written, this`state
      ensures Valid() && written + Owed() == old(written + Owed())
      ensures r.Written? <==> state.Quiet?
      ensures r.Written? || r.WriteZero? || r.WriteError? || r.Suspended?
      ensures !r.Written? ==> Owed() != [] && |Owed()| + Taken(polls) <= |old(Owed())|
      ensures !r.Written? ==> r == StoppedBy(polls, Taken(polls))
    {
      var i := 0;
      ghost var owed := Owed();
      while true
        invariant i <= |polls| && written + Owed() == old(written + Owed())
        invariant |Owed()| + i <= |owed| && forall j :: 0 <= j < i ==> polls[j].Ready? && polls[j].n > 0
        decreases |polls| - i
      {
        if state.Quiet? {
          return Written(0);
        }
        if state.o >= |buffer| {
          assert Owed() == [];
          state := Quiet;
          return Written(0);
        }
        if i == |polls| || !polls[i].Ready? || polls[i].n == 0 {
          TakenUpTo(polls, i);
          return StoppedBy(polls, i);
        }
        var n := if polls[i].n > |buffer| - state.o then |buffer| - state.o else polls[i].n;
        HandOver(n);
        i := i + 1;
      }
    }

    /**
      Encode and start the transfer of one value: `encoded` is what the encoder appended, `ok` whether it got to
      the end. An accepted value replaces whatever was owed. A refused one leaves the state as it was but takes over
      the buffer, so a transfer abandoned before it must not be taken up afterwards.
     */
    method WriteWith(encoded: bytes, ok: bool, polls: seq<Poll>) returns (r: WriteResult)
      requires Valid()
      modifies this
      ensures Valid()
      ensures r.EncodeFailed? <==> !ok
      ensures r.Rejected? <==> ok && |encoded| > maxLen
      ensures ok && |encoded| <= maxLen ==> written + Owed() == old(written) + Framed(encoded)
      ensures r.Written? ==> r.n == |encoded|
      ensures ok && |encoded| <= maxLen ==> (r.Written? <==> state.Quiet?)
      ensures ok && |encoded| <= maxLen && !r.Written? ==>
        Owed() != [] && |Owed()| + Taken(polls) <= 4 + |encoded| && r == StoppedBy(polls, Taken(polls))
      ensures !ok || |encoded| > maxLen ==>
        written == old(written) && state == old(state) && buffer == Refused(old(buffer), encoded)
    {
      hide BigEndian;
      buffer := if |buffer| >= 4 then buffer[..4] else buffer + seq(4 - |buffer|, _ => 0);
      buffer := buffer + encoded;
      if !ok {
        return EncodeFailed;
      }
      if |buffer| - 4 > maxLen {
        return Rejected;
      }
      var prefix := BigEndian((|buffer| % 0x1_0000_0000 - 4) % 0x1_0000_0000, 4);
      buffer := prefix + buffer[4..];
      state := WriteFrom(0);
      LengthWraps(|encoded|);
      assert buffer == Framed(encoded) && Owed() == buffer;
      r := Sync(polls);
      if r.Written? {
        r := Written(|buffer| - 4);
      }
    }

    /** Take up an abandoned or failed transfer again and again: what the attempts move adds up. */
    method SyncUntilDone(attempts: seq<seq<Poll>>) returns (done: bool)
      requires Valid()
      modifies this`written, this`state
      ensures Valid() && written + Owed() == old(written + Owed())
      ensures done <==> state.Quiet?
      ensures !done ==> |Owed()| + TakenInAll(attempts) <= |old(Owed())|
      ensures attempts != [] && TakenInAll(attempts) >= |old(Owed())| ==> done
    {
      hide TakenInAll;
      NoAttempts(attempts);
      ghost var owed := |Owed()|;
      for j := 0 to |attempts|
        invariant Valid() && written + Owed() == old(written + Owed()) && (j > 0 ==> Owed() != [] && !state.Quiet?)
        invariant |Owed()| + TakenInAll(attempts[..j]) <= owed
      {
        NextAttempt(attempts, j);
        var r := Sync(attempts[j]);
        if r.Written? {
          return true;
        }
      }
      done := state.Quiet?;
    }

    /**
      Writes, each taken up again by any number of calls of `sync` while it is unfinished, until one stays so: the
      stream holds the frames of the values short enough, in order. If for every value the calls together move as many
      bytes as its frame has, all of them are delivered, however often a call is cancelled.
     */
    method WriteMany(values: seq<bytes>, polls: seq<(seq<Poll>, seq<seq<Poll>>)>) returns (done: nat)
      requires Valid() && state.Quiet? && |polls| == |values|
      modifies this
      ensures Valid() && done <= |values| && (done == |values| || state.WriteFrom?)
      ensures written + Owed() == old(written) + Stream(Accepted(values[..done], maxLen))
      ensures Owed() == [] ==>
        old(written) <= written && Frames(written[|old(written)|..], maxLen) == Accepted(values[..done], maxLen)
      ensures (forall i :: 0 <= i < |values| ==> Delivers(polls[i], 4 + |values[i]|)) ==>
        done == |values| && state.Quiet?
    {
      hide Framed, NextFrame, Frames, Stream, Accepted, Delivers;
      done := 0;
      NothingAccepted(written, values[..0], maxLen);
      while done < |values|
        invariant done <= |values| && Valid() && state.Quiet?
        invariant written == old(written) + Stream(Accepted(values[..done], maxLen))
      {
        AcceptedSnoc(old(written), values, done, maxLen);
        done := done + 1;
        var ok := WriteOne(values[done - 1], polls[done - 1]);
        if !ok {
          break;
        }
        assert written + [] == written;
      }
      ghost var accepted := Accepted(values[..done], maxLen);
      StreamReadsBack(accepted, maxLen);
      if Owed() == [] {
        assert written + [] == written;
        assert written[|old(written)|..] == Stream(accepted);
      }
    }

    /** One write and the calls of `sync` that take it up again. */
    method WriteOne(value: bytes, polls: (seq<Poll>, seq<seq<Poll>>)) returns (done: bool)
      requires Valid() && state.Quiet?
      modifies this
      ensures Valid() && (done <==> state.Quiet?)
      ensures written + Owed() == old(written) + if |value| <= maxLen then Framed(value) else []
      ensures Delivers(polls, 4 + |value|) ==> done
    {
      var r := WriteWith(value, true, polls.0);
      if r.Rejected? || r.Written? {
        return true;
      }
      done := SyncUntilDone(polls.1);
    }
  }

  ghost function OwedFrom(state: WriteState, buffer: bytes): bytes {
    if state.WriteFrom? && state.o <= |buffer| then buffer[state.o..] else []
  }

  /** What a transfer that is not finished reports: what poll `i` answered, if there is one. */
  function StoppedBy(polls: seq<Poll>, i: nat): WriteResult
    requires i <= |polls|
  {
    if i < |polls| && polls[i].Failed? then WriteError
    else if i < |polls| && polls[i].Ready? then WriteZero
    else Suspended
  }

  /** The write itself and the calls that take it up again move at least `n` bytes between them. */
  predicate Delivers(polls: (seq<Poll>, seq<seq<Poll>>), n: nat) {
    Taken(polls.0) + TakenInAll(polls.1) >= n
  }

  lemma {:induction false} NoAttempts(attempts: seq<seq<Poll>>)
    ensures attempts[..|attempts|] == attempts && TakenInAll(attempts[..0]) == 0
  {
  }

  lemma {:induction false} NextAttempt(attempts: seq<seq<Poll>>, j: nat)
    requires j < |attempts|
    ensures TakenInAll(attempts[..j + 1]) == TakenInAll(attempts[..j]) + Taken(attempts[j])
  {
    assert attempts[..j + 1][..j] == attempts[..j];
  }

  // ----- a write refused while another one is unfinished -----

  /** What the buffer holds after a refused write: room for a length, with what stood there, and the encoded value. */
  function Refused(buffer: bytes, encoded: bytes): bytes {
    (if |buffer| >= 4 then buffer[..4] else buffer + seq(4 - |buffer|, _ => 0)) + encoded
  }

  /** Where the rest of the payload of a transfer that stands at `o` begins. */
  function PayloadFrom(o: nat): nat {
    if o < 4 then 4 else o
  }

  /**
    A refused write keeps what was owed if and only if no transfer was started, or what is left of its payload is what
    the refused value has in the same place. A transfer in progress has been written up to `o` bytes of its frame.
   */
  lemma {:induction false} RefusedKeepsOwedExactly(state: WriteState, payload: bytes, encoded: bytes)
    requires state.WriteFrom? ==> state.o <= |Framed(payload)|
    ensures var survives := OwedFrom(state, Refused(Framed(payload), encoded)) == OwedFrom(state, Framed(payload));
            if state.Quiet? then survives
            else
              var p := PayloadFrom(state.o) - 4;
              survives <==> payload[p..] == OwedFrom(WriteFrom(p), encoded)
  {
    hide BigEndian;
    if state.WriteFrom? {
      var h, o := BigEndian(|payload|, 4), state.o;
      assert Refused(Framed(payload), encoded) == h + encoded;
      BehindHeader(h, payload, o);
      if o <= 4 + |encoded| {
        BehindHeader(h, encoded, o);
      }
    }
  }

  lemma {:induction false} BehindHeader(h: bytes, payload: bytes, o: nat)
    requires |h| == 4 && o <= 4 + |payload|
    ensures var part := if o < 4 then h[o..] else [];
            (h + payload)[o..] == part + payload[PayloadFrom(o) - 4..]
            && (h + payload)[o..][|part|..] == payload[PayloadFrom(o) - 4..]
  {
  }

  /** With [1, 2] announced but not written, refusing [9, 9, 9] makes the next `sync` deliver those instead. */
  lemma {:induction false} RefusedWriteCorrupts()
    ensures var b := Framed([1, 2]);
            OwedFrom(WriteFrom(4), b) == [1, 2] && OwedFrom(WriteFrom(4), Refused(b, [9, 9, 9])) == [9, 9, 9]
  {
    hide BigEndian;
  }

  /** The values that are not too long. */
  function Accepted(values: seq<bytes>, maxLen: nat): (r: seq<bytes>)
    ensures forall i :: 0 <= i < |r| ==> |r[i]| <= maxLen
  {
    if values == [] then []
    else
      var k := |values| - 1;
      if |values[k]| <= maxLen then Accepted(values[..k], maxLen) + [values[k]] else Accepted(values[..k], maxLen)
  }

  lemma {:induction false} NothingAccepted(base: bytes, none: seq<bytes>, maxLen: nat)
    requires none == []
    ensures base == base + Stream(Accepted(none, maxLen))
  {
  }

  lemma {:induction false} AcceptedSnoc(base: bytes, values: seq<bytes>, k: nat, maxLen: nat)
    requires k < |values|
    ensures base + Stream(Accepted(values[..k + 1], maxLen))
         == base + Stream(Accepted(values[..k], maxLen)) + if |values[k]| <= maxLen then Framed(values[k]) else []
  {
    hide Framed, Stream;
    assert values[..k + 1][..k] == values[..k];
    StreamSnoc(Accepted(values[..k], maxLen), values[k]);
  }

  lemma {:induction false} Moved(written: bytes, buffer: bytes, o: nat, n: nat)
    requires o + n <= |buffer|
    ensures written + buffer[o..] == (written + buffer[o..o + n]) + buffer[o + n..]
  {
    assert buffer[o..] == buffer[o..o + n] + buffer[o + n..];
  }

  /** The announced length is computed modulo 2^32 and comes out right for every length below that. */
  lemma {:induction false} LengthWraps(n: nat)
    requires n <= U32_MAX
    ensures ((n + 4) % 0x1_0000_0000 - 4) % 0x1_0000_0000 == n
  {
  }

  lemma {:induction false} StreamSnoc(a: seq<bytes>, p: bytes)
    ensures Stream(a + [p]) == Stream(a) + Framed(p)
  {
    StreamConcat(a, [p]);
    assert Stream([p]) == Framed(p) + Stream([]);
  }
}
