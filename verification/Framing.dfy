/** network/tcp_net/conn.go, readLoop: cutting a byte stream back into frames, each a four-byte
    big-endian length followed by that many bytes. */
module Framing {
  import opened ByteOrder

  const HEAD_LEN := 4
  const MAX_BODY := 1048576
  const FIRST_BUFFER := 65536

  /** Why the loop delivers nothing more of a given stream. */
  datatype ReadEnd =
    | AtEof       // io.EOF before a header or before a body: the loop goes on polling
    | CutShort    // the stream ends inside a header or a body: the connection is closed
    | BadLength   // the length is not in 1..MAX_BODY: closed
    | Rejected    // Unpack failed: closed

  function ConcatAll(parts: seq<Bytes>): Bytes {
    if parts == [] then [] else parts[0] + ConcatAll(parts[1..])
  }

  lemma {:induction false} ConcatAppend(a: seq<Bytes>, b: seq<Bytes>)
    ensures ConcatAll(a + b) == ConcatAll(a) + ConcatAll(b)
    decreases |a|
  {
    if a == [] {
      assert a + b == b;
    } else {
      assert (a + b)[1..] == a[1..] + b;
      ConcatAppend(a[1..], b);
    }
  }

  lemma Regroup<T>(a: seq<T>, b: seq<T>, c: seq<T>)
    ensures (a + b) + c == a + (b + c)
  {}

  predicate ValidBody(body: Bytes) {
    1 <= |body| <= MAX_BODY
  }

  function Frame(body: Bytes): (f: Bytes)
    requires ValidBody(body)
    ensures |f| == HEAD_LEN + |body|
  {
    IntToBytes(|body|) + body
  }

  predicate IsFrame(f: Bytes) {
    |f| > HEAD_LEN && ValidBody(f[HEAD_LEN..]) && f == Frame(f[HEAD_LEN..])
  }

  /** One turn of the loop on what is left of the stream. */
  datatype Turn = Stop(end: ReadEnd) | Deliver(body: Bytes, rest: Bytes)

  function TakeFrame(stream: Bytes, accepts: Bytes -> bool): (t: Turn)
    ensures t.Deliver? ==> |t.rest| < |stream|
  {
    if stream == [] then Stop(AtEof)
    else if |stream| < HEAD_LEN then Stop(CutShort)
    else
      var length := BytesToInt(stream[..HEAD_LEN]);
      var rest := stream[HEAD_LEN..];
      if length <= 0 || length > MAX_BODY then Stop(BadLength)
      else if rest == [] then Stop(AtEof)
      else if |rest| < length then Stop(CutShort)
      else if !accepts(rest[..length]) then Stop(Rejected)
      else Deliver(rest[..length], rest[length..])
  }

  /** The bodies readLoop delivers from a stream, and how it ends. */
  function Read(stream: Bytes, accepts: Bytes -> bool): (r: (seq<Bytes>, ReadEnd))
    decreases |stream|
  {
    match TakeFrame(stream, accepts)
    case Stop(end) => ([], end)
    case Deliver(body, rest) => var (more, end) := Read(rest, accepts); ([body] + more, end)
  }

  predicate RanOut(end: ReadEnd) {
    end == AtEof || end == CutShort
  }

  /** The same when the read deadline passes now and then: `segments` is the stream cut at those moments.
      The loop forgets what it has of an unfinished frame and looks for a header next. */
  function ReadAll(segments: seq<Bytes>, accepts: Bytes -> bool): (r: (seq<Bytes>, ReadEnd))
    requires segments != []
    decreases |segments|
  {
    var (bodies, end) := Read(segments[0], accepts);
    if |segments| == 1 || !RanOut(end) then (bodies, end)
    else var (more, end') := ReadAll(segments[1..], accepts); (bodies + more, end')
  }

  function Then(bodies: seq<Bytes>, r: (seq<Bytes>, ReadEnd)): (seq<Bytes>, ReadEnd) {
    (bodies + r.0, r.1)
  }

  /** What is still to come in the middle of the first segment. */
  function ReadFrom(segments: seq<Bytes>, pos: nat, accepts: Bytes -> bool): (seq<Bytes>, ReadEnd)
    requires segments != [] && pos <= |segments[0]|
  {
    ReadAll([segments[0][pos..]] + segments[1..], accepts)
  }

  lemma ReadFromStart(segments: seq<Bytes>, accepts: Bytes -> bool)
    requires segments != []
    ensures ReadFrom(segments, 0, accepts) == ReadAll(segments, accepts)
  {
    assert [segments[0][0..]] + segments[1..] == segments;
  }

  lemma ReadFromGoesOn(segments: seq<Bytes>, pos: nat, next: nat, accepts: Bytes -> bool)
    requires segments != [] && pos < next <= |segments[0]|
    requires var t := TakeFrame(segments[0][pos..], accepts); t.Deliver? && t.rest == segments[0][next..]
    ensures ReadFrom(segments, pos, accepts)
         == Then([TakeFrame(segments[0][pos..], accepts).body], ReadFrom(segments, next, accepts))
  {
    var now, later := [segments[0][pos..]] + segments[1..], [segments[0][next..]] + segments[1..];
    assert now[1..] == later[1..];
    if |segments| > 1 {
      var body := TakeFrame(segments[0][pos..], accepts).body;
      Regroup([body], Read(segments[0][next..], accepts).0, ReadAll(now[1..], accepts).0);
    }
  }

  lemma ReadFromStops(segments: seq<Bytes>, pos: nat, accepts: Bytes -> bool)
    requires segments != [] && pos <= |segments[0]| && TakeFrame(segments[0][pos..], accepts).Stop?
    ensures var end := TakeFrame(segments[0][pos..], accepts).end;
      ReadFrom(segments, pos, accepts)
      == if RanOut(end) && |segments| > 1 then ReadAll(segments[1..], accepts) else ([], end)
  {
    var now := [segments[0][pos..]] + segments[1..];
    assert now[1..] == segments[1..];
    if |segments| > 1 {
      assert [] + ReadAll(segments[1..], accepts).0 == ReadAll(segments[1..], accepts).0;
    }
  }

  /** io.ReadFull: fill the first `count` slots of the buffer from the stream. */
  method ReadFull(stream: Bytes, pos: nat, buffer: array<Byte>, count: nat) returns (got: nat)
    requires pos <= |stream| && count <= buffer.Length
    modifies buffer
    ensures got == if |stream| - pos < count then |stream| - pos else count
    ensures buffer[..got] == stream[pos..pos + got]
  {
    got := 0;
    while got < count && pos + got < |stream|
      invariant got <= count && pos + got <= |stream|
      invariant buffer[..got] == stream[pos..pos + got]
    {
      buffer[got] := stream[pos + got];
      got := got + 1;
    }
  }

  /** One turn of readLoop: header, length check, body. The body buffer is reused when it is large
      enough and replaced when it is not. */
  method ReadFrame(stream: Bytes, pos: nat, headData: array<Byte>, msgBuffer: array<Byte>, accepts: Bytes -> bool)
    returns (turn: Turn, next: nat, buffer: array<Byte>)
    requires pos <= |stream| && headData.Length == HEAD_LEN && headData != msgBuffer
    modifies headData, msgBuffer
    ensures turn == TakeFrame(stream[pos..], accepts)
    ensures buffer == msgBuffer || fresh(buffer)
    ensures turn.Deliver? ==> pos < next <= |stream| && turn.rest == stream[next..] && turn.body <= buffer[..]
  {
    ghost var left := stream[pos..];
    next, buffer := pos, msgBuffer;
    var got := ReadFull(stream, next, headData, HEAD_LEN);
    if got < HEAD_LEN {
      return Stop(if got == 0 then AtEof else CutShort), next, buffer;
    }
    assert headData[..] == headData[..got] == left[..HEAD_LEN];
    var msgLen := BytesToInt(headData[..]);
    if msgLen <= 0 || msgLen > MAX_BODY {
      return Stop(BadLength), next, buffer;
    }
    next := next + HEAD_LEN;
    if buffer.Length < msgLen {
      buffer := new Byte[msgLen];
    }
    got := ReadFull(stream, next, buffer, msgLen);
    assert left[HEAD_LEN..] == stream[next..];
    if got < msgLen {
      return Stop(if got == 0 then AtEof else CutShort), next, buffer;
    }
    assert buffer[..msgLen] == left[HEAD_LEN..][..msgLen];
    next := next + msgLen;
    assert left[HEAD_LEN..][msgLen..] == stream[next..];
    if !accepts(buffer[..msgLen]) {
      return Stop(Rejected), next, buffer;
    }
    turn := Deliver(buffer[..msgLen], stream[next..]);
  }

  method ReadLoop(segments: seq<Bytes>, accepts: Bytes -> bool) returns (delivered: seq<Bytes>, end: ReadEnd)
    requires segments != []
    ensures (delivered, end) == ReadAll(segments, accepts)
  {
    var headData := new Byte[HEAD_LEN];
    var msgBuffer := new Byte[FIRST_BUFFER];
    var at, pos := 0, 0;
    delivered := [];
    ReadFromStart(segments, accepts);
    assert segments[0..] == segments && [] + ReadAll(segments, accepts).0 == ReadAll(segments, accepts).0;
    while true
      invariant 0 <= at < |segments| && 0 <= pos <= |segments[at]|
      invariant ReadAll(segments, accepts) == Then(delivered, ReadFrom(segments[at..], pos, accepts))
      invariant fresh(headData) && fresh(msgBuffer) && headData != msgBuffer && headData.Length == HEAD_LEN
      decreases |segments| - at, |segments[at]| - pos
    {
      ghost var left := segments[at..];
      var turn, next, buffer := ReadFrame(segments[at], pos, headData, msgBuffer, accepts);
      if turn.Deliver? {
        ReadFromGoesOn(left, pos, next, accepts);
        Regroup(delivered, [turn.body], ReadFrom(left, next, accepts).0);
        pos, msgBuffer := next, buffer;
        delivered := delivered + [turn.body];
      } else if RanOut(turn.end) && at + 1 < |segments| {
        ReadFromStops(left, pos, accepts);
        assert left[1..] == segments[at + 1..];
        ReadFromStart(left[1..], accepts);
        at, pos, msgBuffer := at + 1, 0, buffer;
      } else {
        ReadFromStops(left, pos, accepts);
        assert delivered + [] == delivered;
        return delivered, turn.end;
      }
    }
  }

  // ---------------------------------------------------------------- round trips

  function Body(f: Bytes): Bytes
    requires |f| >= HEAD_LEN
  {
    f[HEAD_LEN..]
  }

  predicate AllFrames(frames: seq<Bytes>, accepts: Bytes -> bool) {
    forall f :: f in frames ==> IsFrame(f) && accepts(Body(f))
  }

  function Bodies(frames: seq<Bytes>): (bodies: seq<Bytes>)
    requires forall f :: f in frames ==> |f| >= HEAD_LEN
    ensures |bodies| == |frames| && forall i :: 0 <= i < |frames| ==> bodies[i] == Body(frames[i])
  {
    if frames == [] then [] else [Body(frames[0])] + Bodies(frames[1..])
  }

  lemma TakeWholeFrame(frame: Bytes, rest: Bytes, accepts: Bytes -> bool)
    requires IsFrame(frame) && accepts(Body(frame))
    ensures TakeFrame(frame + rest, accepts) == Deliver(Body(frame), rest)
  {
    var stream, body := frame + rest, Body(frame);
    IntRoundTrip(|body|);
    assert stream[..HEAD_LEN] == IntToBytes(|body|);
    assert stream[HEAD_LEN..] == body + rest;
    assert (body + rest)[..|body|] == body && (body + rest)[|body|..] == rest;
  }

  lemma ReadOneFrame(frame: Bytes, rest: Bytes, accepts: Bytes -> bool)
    requires IsFrame(frame) && accepts(Body(frame))
    ensures Read(frame + rest, accepts) == ([Body(frame)] + Read(rest, accepts).0, Read(rest, accepts).1)
  {
    TakeWholeFrame(frame, rest, accepts);
  }

  lemma ConcatCons(parts: seq<Bytes>, rest: Bytes)
    requires parts != []
    ensures ConcatAll(parts) + rest == parts[0] + (ConcatAll(parts[1..]) + rest)
  {}

  lemma BodiesCons(frames: seq<Bytes>, more: seq<Bytes>)
    requires frames != [] && forall f :: f in frames ==> |f| >= HEAD_LEN
    ensures [Body(frames[0])] + (Bodies(frames[1..]) + more) == Bodies(frames) + more
  {}

  /** Frames that were written one after the other are read back exactly, whatever follows them. */
  lemma {:induction false} FramesReadBack(frames: seq<Bytes>, rest: Bytes, accepts: Bytes -> bool)
    requires AllFrames(frames, accepts)
    ensures Read(ConcatAll(frames) + rest, accepts) == (Bodies(frames) + Read(rest, accepts).0, Read(rest, accepts).1)
    decreases |frames|
  {
    if frames == [] {
      assert ConcatAll(frames) + rest == rest && Bodies(frames) + Read(rest, accepts).0 == Read(rest, accepts).0;
    } else {
      FramesReadBack(frames[1..], rest, accepts);
      ConcatCons(frames, rest);
      ReadOneFrame(frames[0], ConcatAll(frames[1..]) + rest, accepts);
      BodiesCons(frames, Read(rest, accepts).0);
    }
  }

  lemma ReadWhole(frames: seq<Bytes>, accepts: Bytes -> bool)
    requires AllFrames(frames, accepts)
    ensures Read(ConcatAll(frames), accepts) == (Bodies(frames), AtEof)
  {
    FramesReadBack(frames, [], accepts);
    assert ConcatAll(frames) + [] == ConcatAll(frames) && Bodies(frames) + [] == Bodies(frames);
  }

  lemma {:induction false} BodiesAppend(a: seq<Bytes>, b: seq<Bytes>)
    requires forall f :: f in a + b ==> |f| >= HEAD_LEN
    ensures (forall f :: f in a || f in b ==> |f| >= HEAD_LEN) && Bodies(a + b) == Bodies(a) + Bodies(b)
  {
    assert forall f :: f in a || f in b ==> f in a + b;
    assert forall i :: 0 <= i < |b| ==> (a + b)[|a| + i] == b[i];
  }

  /** A frame that breaks off gives no message. */
  lemma BrokenFrame(frame: Bytes, part: Bytes, accepts: Bytes -> bool)
    requires IsFrame(frame) && part <= frame && part != frame
    ensures TakeFrame(part, accepts) == Stop(AtEof) || TakeFrame(part, accepts) == Stop(CutShort)
  {
    if |part| >= HEAD_LEN {
      IntRoundTrip(|Body(frame)|);
      assert part[..HEAD_LEN] == frame[..HEAD_LEN] == IntToBytes(|Body(frame)|);
    }
  }

  lemma PrefixSplits(first: Bytes, others: Bytes, part: Bytes)
    requires part <= first + others
    ensures if |part| < |first| then part <= first
            else part == first + part[|first|..] && part[|first|..] <= others
  {
    assert part == (first + others)[..|part|];
  }

  /** How many frames are complete in a stream of them that breaks off. */
  function Completed(frames: seq<Bytes>, part: Bytes): (n: nat)
    requires part <= ConcatAll(frames)
    ensures n <= |frames|
    decreases |frames|
  {
    if frames == [] || |part| < |frames[0]| then 0
    else
      PrefixSplits(frames[0], ConcatAll(frames[1..]), part);
      1 + Completed(frames[1..], part[|frames[0]|..])
  }

  /** The rest of such a stream is a frame that breaks off, or nothing. */
  lemma {:induction false} CompletedSplits(frames: seq<Bytes>, part: Bytes) returns (rest: Bytes)
    requires part <= ConcatAll(frames)
    ensures var n := Completed(frames, part);
      && part == ConcatAll(frames[..n]) + rest
      && (if n == |frames| then rest == [] else rest <= frames[n] && rest != frames[n])
    decreases |frames|
  {
    if frames == [] {
      rest := [];
    } else {
      PrefixSplits(frames[0], ConcatAll(frames[1..]), part);
      if |part| < |frames[0]| {
        rest := part;
      } else {
        rest := CompletedSplits(frames[1..], part[|frames[0]|..]);
        var n := Completed(frames, part);
        assert frames[..n][1..] == frames[1..][..n - 1];
        assert part == frames[0] + (ConcatAll(frames[1..][..n - 1]) + rest);
      }
    }
  }

  lemma BrokenRest(frames: seq<Bytes>, n: nat, rest: Bytes, accepts: Bytes -> bool)
    requires AllFrames(frames, accepts) && n <= |frames|
    requires if n == |frames| then rest == [] else rest <= frames[n] && rest != frames[n]
    ensures Read(rest, accepts).0 == [] && RanOut(Read(rest, accepts).1)
  {
    if n < |frames| {
      BrokenFrame(frames[n], rest, accepts);
    }
  }

  lemma CompletedFirst(frames: seq<Bytes>, part: Bytes, more: Bytes, accepts: Bytes -> bool) returns (rest: Bytes)
    requires AllFrames(frames, accepts) && part <= ConcatAll(frames)
    ensures var n := Completed(frames, part);
      && AllFrames(frames[..n], accepts) && part == ConcatAll(frames[..n]) + rest
      && (if n == |frames| then rest == [] else rest <= frames[n] && rest != frames[n])
      && Read(part + more, accepts) == (Bodies(frames[..n]) + Read(rest + more, accepts).0, Read(rest + more, accepts).1)
  {
    var n := Completed(frames, part);
    rest := CompletedSplits(frames, part);
    Regroup(ConcatAll(frames[..n]), rest, more);
    FramesReadBack(frames[..n], rest + more, accepts);
  }

  /** A stream of frames that breaks off anywhere, and other frames after it: the complete ones are
      delivered, and the others too if it broke off between two frames or there are none. */
  lemma TornThenMore(frames: seq<Bytes>, part: Bytes, more: seq<Bytes>, accepts: Bytes -> bool)
    requires AllFrames(frames, accepts) && AllFrames(more, accepts) && part <= ConcatAll(frames)
    ensures var done := frames[..Completed(frames, part)];
      && AllFrames(done, accepts)
      && var (bodies, end) := Read(part + ConcatAll(more), accepts);
         && Bodies(done) <= bodies
         && (more == [] || part == ConcatAll(done) ==> bodies == Bodies(done) + Bodies(more) && RanOut(end))
  {
    var rest := CompletedFirst(frames, part, ConcatAll(more), accepts);
    if more == [] {
      BrokenRest(frames, Completed(frames, part), rest, accepts);
      assert rest + [] == rest;
    } else if rest == [] {
      assert rest + ConcatAll(more) == ConcatAll(more);
      ReadWhole(more, accepts);
    }
  }

  /** In particular a stream of frames that breaks off for good is read as the frames that are complete. */
  lemma PrefixReadsBack(frames: seq<Bytes>, part: Bytes, accepts: Bytes -> bool)
    requires AllFrames(frames, accepts) && part <= ConcatAll(frames)
    ensures var n := Completed(frames, part);
      && AllFrames(frames[..n], accepts)
      && Read(part, accepts).0 == Bodies(frames[..n]) && RanOut(Read(part, accepts).1)
  {
    TornThenMore(frames, part, [], accepts);
    assert part + [] == part;
    assert Bodies(frames[..Completed(frames, part)]) + [] == Bodies(frames[..Completed(frames, part)]);
  }

  /** The reader delivers the complete frames and what comes after the break, if they are frames it accepts. */
  ghost predicate DeliversAll(frames: seq<Bytes>, part: Bytes, more: seq<Bytes>, accepts: Bytes -> bool)
    requires part <= ConcatAll(frames)
  {
    var done := frames[..Completed(frames, part)];
    AllFrames(frames, accepts) && AllFrames(more, accepts) ==>
      AllFrames(done, accepts) && Read(part + ConcatAll(more), accepts).0 == Bodies(done) + Bodies(more)
  }

  ghost predicate Harmless(frames: seq<Bytes>, part: Bytes)
    requires part <= ConcatAll(frames)
  {
    forall more, accepts :: DeliversAll(frames, part, more, accepts)
  }

  lemma OneFrame(f: Bytes)
    requires |f| >= HEAD_LEN
    ensures ConcatAll([f]) == f && Bodies([f]) == [Body(f)]
  {}

  lemma ShortFrame(x: Byte)
    ensures IsFrame([0, 0, 0, 1, x]) && Body([0, 0, 0, 1, x]) == [x]
  {
    var f: Bytes := [0, 0, 0, 1, x];
    assert f[HEAD_LEN..] == [x];
    assert IntToBytes(1) == [0, 0, 0, 1];
  }

  lemma FifthByte(rest: Bytes, x: Byte)
    requires rest != [] && (if |rest| > HEAD_LEN then x != rest[HEAD_LEN] else x > 1)
    ensures (rest + [0, 0, 0, 1, x])[HEAD_LEN] != x
  {
    var f: Bytes := [0, 0, 0, 1, x];
    assert |rest| <= HEAD_LEN ==> (rest + f)[HEAD_LEN] == f[HEAD_LEN - |rest|];
  }

  lemma FirstTaken(stream: Bytes, accepts: Bytes -> bool)
    requires Read(stream, accepts).0 != []
    ensures TakeFrame(stream, accepts).Deliver? && TakeFrame(stream, accepts).body == Read(stream, accepts).0[0]
  {}

  lemma FirstDelivered(stream: Bytes, x: Byte, accepts: Bytes -> bool)
    requires Read(stream, accepts).0 == [[x]]
    ensures |stream| > HEAD_LEN && stream[HEAD_LEN] == x
  {
    FirstTaken(stream, accepts);
    TakenWasFramed(stream, accepts);
    var t := TakeFrame(stream, accepts);
    assert (Frame(t.body) + t.rest)[HEAD_LEN] == t.body[0];
  }

  /** After the front of a frame, a message of one byte is not read as what it is. */
  lemma ShiftedFrame(rest: Bytes, x: Byte, accepts: Bytes -> bool)
    requires rest != [] && (if |rest| > HEAD_LEN then x != rest[HEAD_LEN] else x > 1)
    ensures Read(rest + [0, 0, 0, 1, x], accepts).0 != [[x]]
  {
    FifthByte(rest, x);
    if Read(rest + [0, 0, 0, 1, x], accepts).0 == [[x]] {
      FirstDelivered(rest + [0, 0, 0, 1, x], x, accepts);
    }
  }

  predicate Anything(body: Bytes) {
    true
  }

  lemma NotDelivered(frames: seq<Bytes>, part: Bytes, rest: Bytes, more: seq<Bytes>, accepts: Bytes -> bool)
    requires AllFrames(frames, accepts) && AllFrames(more, accepts) && part <= ConcatAll(frames)
    requires part == ConcatAll(frames[..Completed(frames, part)]) + rest
    requires Read(rest + ConcatAll(more), accepts).0 != Bodies(more)
    ensures !DeliversAll(frames, part, more, accepts)
  {
    var done := frames[..Completed(frames, part)];
    FramesReadBack(done, rest + ConcatAll(more), accepts);
    Regroup(ConcatAll(done), rest, ConcatAll(more));
    TailsDiffer(Bodies(done), Read(rest + ConcatAll(more), accepts).0, Bodies(more));
  }

  lemma SomeFrameIsMisread(rest: Bytes) returns (f: Bytes)
    requires rest != []
    ensures IsFrame(f) && Read(rest + f, Anything).0 != [Body(f)]
  {
    var x: Byte := if |rest| > HEAD_LEN && rest[HEAD_LEN] == 7 then 8 else 7;
    f := [0, 0, 0, 1, x];
    ShortFrame(x);
    ShiftedFrame(rest, x, Anything);
  }

  lemma TailsDiffer<T>(a: seq<T>, b: seq<T>, c: seq<T>)
    ensures a + b == a + c ==> b == c
  {
    assert (a + b)[|a|..] == b;
    assert (a + c)[|a|..] == c;
  }

  /** Exactly which failed writes do no harm to what is written after them, whatever it is and whatever
      the reader accepts: those that stop between two frames. */
  lemma TearHarmless(frames: seq<Bytes>, part: Bytes)
    requires AllFrames(frames, Anything) && part <= ConcatAll(frames)
    ensures Harmless(frames, part) <==> part == ConcatAll(frames[..Completed(frames, part)])
  {
    if part == ConcatAll(frames[..Completed(frames, part)]) {
      forall more, accepts | AllFrames(frames, accepts) && AllFrames(more, accepts)
        ensures DeliversAll(frames, part, more, accepts)
      {
        TornThenMore(frames, part, more, accepts);
      }
    } else {
      var rest := CompletedSplits(frames, part);
      assert rest != [] by {
        assert ConcatAll(frames[..Completed(frames, part)]) + [] == ConcatAll(frames[..Completed(frames, part)]);
      }
      var f := SomeFrameIsMisread(rest);
      OneFrame(f);
      NotDelivered(frames, part, rest, [f], Anything);
    }
  }

  /** What a tear can do: right after the length of a frame, what is written later is read as its body. */
  lemma TearMerges(frames: seq<Bytes>, accepts: Bytes -> bool)
    requires ValidBody(ConcatAll(frames)) && accepts(ConcatAll(frames))
    ensures Read(IntToBytes(|ConcatAll(frames)|) + ConcatAll(frames), accepts) == ([ConcatAll(frames)], AtEof)
  {
    var body := ConcatAll(frames);
    assert Frame(body)[HEAD_LEN..] == body;
    ReadWhole([Frame(body)], accepts);
    OneFrame(Frame(body));
  }

  lemma TakenWasFramed(stream: Bytes, accepts: Bytes -> bool)
    ensures var t := TakeFrame(stream, accepts);
      && (t.Deliver? ==> ValidBody(t.body) && accepts(t.body) && stream == Frame(t.body) + t.rest)
      && (t == Stop(AtEof) ==> |stream| == 0 || |stream| == HEAD_LEN)
  {
    if |stream| >= HEAD_LEN {
      BytesRoundTrip(stream[..HEAD_LEN]);
      assert stream == stream[..HEAD_LEN] + stream[HEAD_LEN..];
    }
  }

  /** Conversely, any stream at all is the frames of what was delivered from it and a rest, from
      which nothing more can be taken; a loop that still polls has at most one header in that rest. */
  lemma {:induction false} DeliveredWasFramed(stream: Bytes, accepts: Bytes -> bool)
    returns (frames: seq<Bytes>, rest: Bytes)
    ensures AllFrames(frames, accepts) && Bodies(frames) == Read(stream, accepts).0
    ensures stream == ConcatAll(frames) + rest
    ensures TakeFrame(rest, accepts) == Stop(Read(stream, accepts).1)
    ensures Read(stream, accepts).1 == AtEof ==> |rest| == 0 || |rest| == HEAD_LEN
    decreases |stream|
  {
    TakenWasFramed(stream, accepts);
    match TakeFrame(stream, accepts)
    case Stop(end) =>
      frames, rest := [], stream;
    case Deliver(body, left) =>
      var more;
      more, rest := DeliveredWasFramed(left, accepts);
      frames := [Frame(body)] + more;
      assert Body(Frame(body)) == body && frames[1..] == more;
      ConcatCons(frames, rest);
  }

  /** The stream begins with the length of a body of `n` bytes. */
  predicate Announces(stream: Bytes, n: int) {
    |stream| >= HEAD_LEN && 1 <= n <= 1048576 && stream[..HEAD_LEN] == IntToBytes(n)
  }

  lemma AnnouncedOnce(stream: Bytes, n: int)
    requires Announces(stream, n)
    ensures BytesToInt(stream[..HEAD_LEN]) == n
  {
    IntRoundTrip(n);
  }

  lemma AnnouncedLength(stream: Bytes)
    requires |stream| >= HEAD_LEN && 1 <= BytesToInt(stream[..HEAD_LEN]) <= 1048576
    ensures Announces(stream, BytesToInt(stream[..HEAD_LEN]))
  {
    BytesRoundTrip(stream[..HEAD_LEN]);
  }

  /** Which turn it is, by the bytes there are: a message exactly when a whole body of a length from 1 to
      1048576 has arrived and is accepted, and otherwise what is wrong with it. */
  lemma TurnMeans(stream: Bytes, accepts: Bytes -> bool)
    ensures var t := TakeFrame(stream, accepts);
      && (t.Deliver? <==> exists n :: Announces(stream, n) && |stream| >= 4 + n && accepts(stream[4..4 + n]))
      && (t == Stop(Rejected) <==> exists n :: Announces(stream, n) && |stream| >= 4 + n && !accepts(stream[4..4 + n]))
      && (t == Stop(CutShort) <==> 0 < |stream| < 4 || exists n :: Announces(stream, n) && 4 < |stream| < 4 + n)
      && (t == Stop(AtEof) <==> stream == [] || (|stream| == 4 && exists n :: Announces(stream, n)))
      && (t == Stop(BadLength) <==> |stream| >= 4 && forall n :: !Announces(stream, n))
      && (t.Deliver? ==> Announces(stream, |t.body|) && stream == stream[..4] + t.body + t.rest)
  {
    if |stream| >= HEAD_LEN {
      var length := BytesToInt(stream[..HEAD_LEN]);
      forall n | Announces(stream, n)
        ensures n == length
      {
        AnnouncedOnce(stream, n);
      }
      if 1 <= length <= 1048576 {
        AnnouncedLength(stream);
        assert |stream| >= 4 + length ==> stream[HEAD_LEN..][..length] == stream[4..4 + length];
      }
      assert stream == stream[..4] + stream[4..];
    }
  }

  lemma ReadAllSplits(segments: seq<Bytes>, accepts: Bytes -> bool)
    requires segments != []
    ensures ReadAll(segments, accepts)
         == if |segments| == 1 || !RanOut(Read(segments[0], accepts).1) then Read(segments[0], accepts)
            else Then(Read(segments[0], accepts).0, ReadAll(segments[1..], accepts))
  {}

  /** After a bad length or a rejected message the connection is closed for good: whatever arrives later
      is not read. */
  lemma {:induction false} ClosedForGood(segments: seq<Bytes>, more: seq<Bytes>, accepts: Bytes -> bool)
    requires segments != [] && !RanOut(Read(segments[|segments| - 1], accepts).1)
    ensures ReadAll(segments + more, accepts) == ReadAll(segments, accepts)
    decreases |segments|
  {
    ReadAllSplits(segments, accepts);
    ReadAllSplits(segments + more, accepts);
    if |segments| > 1 {
      ClosedForGood(segments[1..], more, accepts);
      assert (segments + more)[1..] == segments[1..] + more;
    }
  }

  // ---------------------------------------------------------------- read timeouts

  /** Every segment is made of whole frames, in order: no deadline passed inside a frame. */
  ghost predicate Aligned(segments: seq<Bytes>, frames: seq<Bytes>)
    decreases |segments|
  {
    if segments == [] then frames == []
    else exists n: nat :: SplitsOff(segments, frames, n) && Aligned(segments[1..], frames[n..])
  }

  predicate SplitsOff(segments: seq<Bytes>, frames: seq<Bytes>, n: nat) {
    segments != [] && n <= |frames| && segments[0] == ConcatAll(frames[..n])
  }

  /** The bytes that these bodies take up on the wire. */
  function Weight(bodies: seq<Bytes>): nat {
    if bodies == [] then 0 else HEAD_LEN + |bodies[0]| + Weight(bodies[1..])
  }

  lemma {:induction false} WeightAppend(a: seq<Bytes>, b: seq<Bytes>)
    ensures Weight(a + b) == Weight(a) + Weight(b)
    decreases |a|
  {
    if a == [] {
      assert a + b == b;
    } else {
      assert (a + b)[1..] == a[1..] + b;
      WeightAppend(a[1..], b);
    }
  }

  lemma {:induction false} FramesWeigh(frames: seq<Bytes>)
    requires forall f :: f in frames ==> |f| >= HEAD_LEN
    ensures |ConcatAll(frames)| == Weight(Bodies(frames))
    decreases |frames|
  {
    if frames == [] {
    } else {
      FramesWeigh(frames[1..]);
    }
  }

  /** No more can be delivered than arrives. */
  lemma DeliveredFits(stream: Bytes, accepts: Bytes -> bool) returns (frames: seq<Bytes>)
    ensures AllFrames(frames, accepts) && Bodies(frames) == Read(stream, accepts).0
    ensures Weight(Read(stream, accepts).0) <= |stream|
    ensures Weight(Read(stream, accepts).0) == |stream| ==> stream == ConcatAll(frames)
  {
    var rest;
    frames, rest := DeliveredWasFramed(stream, accepts);
    FramesWeigh(frames);
    assert rest == [] ==> ConcatAll(frames) + rest == ConcatAll(frames);
  }

  lemma {:induction false} AllDeliveredFits(segments: seq<Bytes>, accepts: Bytes -> bool)
    requires segments != []
    ensures Weight(ReadAll(segments, accepts).0) <= |ConcatAll(segments)|
    decreases |segments|
  {
    var _ := DeliveredFits(segments[0], accepts);
    if |segments| > 1 {
      AllDeliveredFits(segments[1..], accepts);
      WeightAppend(Read(segments[0], accepts).0, ReadAll(segments[1..], accepts).0);
    }
  }

  /** A frame is known by its body. */
  lemma {:induction false} SameBodiesSameFrames(a: seq<Bytes>, b: seq<Bytes>, accepts: Bytes -> bool)
    requires AllFrames(a, accepts) && AllFrames(b, accepts) && Bodies(a) == Bodies(b)
    ensures a == b
  {
    forall i | 0 <= i < |a|
      ensures a[i] == b[i]
    {
      assert Bodies(a)[i] == Body(a[i]) && Bodies(b)[i] == Body(b[i]);
      assert IsFrame(a[i]) && IsFrame(b[i]);
    }
  }

  lemma ReadOn(segments: seq<Bytes>, first: seq<Bytes>, more: seq<Bytes>, accepts: Bytes -> bool)
    requires segments != [] && Read(segments[0], accepts) == (first, AtEof)
    requires if |segments| == 1 then more == [] else ReadAll(segments[1..], accepts) == (more, AtEof)
    ensures ReadAll(segments, accepts) == (first + more, AtEof)
  {
    ReadAllSplits(segments, accepts);
    assert first + [] == first;
  }

  lemma SplitBodies(frames: seq<Bytes>, n: nat, accepts: Bytes -> bool)
    requires AllFrames(frames, accepts) && n <= |frames|
    ensures AllFrames(frames[..n], accepts) && AllFrames(frames[n..], accepts)
    ensures Bodies(frames) == Bodies(frames[..n]) + Bodies(frames[n..])
  {
    assert frames == frames[..n] + frames[n..];
    BodiesAppend(frames[..n], frames[n..]);
  }

  lemma {:induction false} AlignedIsRead(segments: seq<Bytes>, frames: seq<Bytes>, accepts: Bytes -> bool)
    requires segments != [] && AllFrames(frames, accepts) && Aligned(segments, frames)
    ensures ReadAll(segments, accepts) == (Bodies(frames), AtEof)
    decreases |segments|
  {
    var n: nat :| SplitsOff(segments, frames, n) && Aligned(segments[1..], frames[n..]);
    SplitBodies(frames, n, accepts);
    ReadWhole(frames[..n], accepts);
    if |segments| > 1 {
      AlignedIsRead(segments[1..], frames[n..], accepts);
    } else {
      assert frames[n..] == [];
    }
    ReadOn(segments, Bodies(frames[..n]), Bodies(frames[n..]), accepts);
  }

  ghost predicate Fills(segment: Bytes, frames: seq<Bytes>, accepts: Bytes -> bool) {
    && AllFrames(frames, accepts) && Read(segment, accepts).0 == Bodies(frames)
    && Weight(Bodies(frames)) == |segment|
  }

  /** When the loop delivers as much as a segment holds, the segment is the frames delivered. */
  lemma FullSegment(segment: Bytes, frames: seq<Bytes>, accepts: Bytes -> bool)
    requires Fills(segment, frames, accepts)
    ensures segment == ConcatAll(frames) && Read(segment, accepts).1 == AtEof
  {
    var found := DeliveredFits(segment, accepts);
    SameBodiesSameFrames(found, frames, accepts);
    ReadWhole(found, accepts);
  }

  lemma FirstFull(segments: seq<Bytes>, frames: seq<Bytes>, accepts: Bytes -> bool) returns (n: nat)
    requires segments != [] && AllFrames(frames, accepts)
    requires ConcatAll(segments) == ConcatAll(frames) && ReadAll(segments, accepts).0 == Bodies(frames)
    ensures SplitsOff(segments, frames, n) && AllFrames(frames[..n], accepts)
    ensures Read(segments[0], accepts) == (Bodies(frames[..n]), AtEof)
  {
    var first := Read(segments[0], accepts).0;
    n := |first|;
    assert frames == frames[..n] + frames[n..];
    BodiesAppend(frames[..n], frames[n..]);
    assert first == Bodies(frames)[..n] == Bodies(frames[..n]);
    FramesWeigh(frames);
    var _ := DeliveredFits(segments[0], accepts);
    if |segments| > 1 {
      AllDeliveredFits(segments[1..], accepts);
      WeightAppend(first, ReadAll(segments[1..], accepts).0);
    }
    FullSegment(segments[0], frames[..n], accepts);
  }

  lemma {:induction false} ReadIsAligned(segments: seq<Bytes>, frames: seq<Bytes>, accepts: Bytes -> bool)
    requires segments != [] && AllFrames(frames, accepts)
    requires ConcatAll(segments) == ConcatAll(frames) && ReadAll(segments, accepts).0 == Bodies(frames)
    ensures Aligned(segments, frames)
    decreases |segments|
  {
    var n := FirstFull(segments, frames, accepts);
    var rest := frames[n..];
    assert frames == frames[..n] + rest;
    ConcatAppend(frames[..n], rest);
    BodiesAppend(frames[..n], rest);
    assert ConcatAll(segments[1..]) == ConcatAll(frames)[|segments[0]|..] == ConcatAll(rest);
    if |segments| > 1 {
      assert ReadAll(segments[1..], accepts).0 == Bodies(frames)[n..] == Bodies(rest);
      ReadIsAligned(segments[1..], rest, accepts);
    } else {
      FramesWeigh(rest);
      assert rest == [];
    }
  }

  /** Exactly which read timeouts do no harm: a stream of frames is delivered whole if and only if no
      deadline passed inside a frame. */
  lemma TimeoutsHarmless(segments: seq<Bytes>, frames: seq<Bytes>, accepts: Bytes -> bool)
    requires segments != [] && AllFrames(frames, accepts) && ConcatAll(segments) == ConcatAll(frames)
    ensures ReadAll(segments, accepts).0 == Bodies(frames) <==> Aligned(segments, frames)
  {
    if Aligned(segments, frames) {
      AlignedIsRead(segments, frames, accepts);
    }
    if ReadAll(segments, accepts).0 == Bodies(frames) {
      ReadIsAligned(segments, frames, accepts);
    }
  }

  /** What a deadline inside a frame can do: right after the length, the body is read as a stream of its
      own. A message whose body is itself made of frames turns into those. */
  lemma TimeoutUnpacks(frames: seq<Bytes>, accepts: Bytes -> bool)
    requires AllFrames(frames, accepts) && ValidBody(ConcatAll(frames))
    ensures ReadAll([IntToBytes(|ConcatAll(frames)|), ConcatAll(frames)], accepts) == (Bodies(frames), AtEof)
  {
    var segments := [IntToBytes(|ConcatAll(frames)|), ConcatAll(frames)];
    IntRoundTrip(|ConcatAll(frames)|);
    assert TakeFrame(segments[0], accepts) == Stop(AtEof);
    ReadWhole(frames, accepts);
    assert segments[1..] == [ConcatAll(frames)];
    assert [] + Bodies(frames) == Bodies(frames);
  }

  /** For instance: one message of five bytes is sent, and one of a single byte is delivered. */
  lemma TimeoutInvents()
    ensures var sent := Frame([0, 0, 0, 1, 7]);
      && Read(sent, Anything).0 == [[0, 0, 0, 1, 7]]
      && ReadAll([sent[..HEAD_LEN], sent[HEAD_LEN..]], Anything).0 == [[7]]
  {
    var inner: Bytes := [0, 0, 0, 1, 7];
    var sent := Frame(inner);
    ShortFrame(7);
    OneFrame(inner);
    TimeoutUnpacks([inner], Anything);
    assert sent[..HEAD_LEN] == IntToBytes(|inner|) && sent[HEAD_LEN..] == inner;
    ReadWhole([sent], Anything);
    OneFrame(sent);
  }
}
