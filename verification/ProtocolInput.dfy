/**
  `ProtocolHandler::handle_input`: cutting the frames out of the receive buffer, with the
  buffer's own `tidy`, and exactly when that loses part of the stream.
 */
module ProtocolInput {
  import opened Basics
  import opened Bytes
  import opened LittleEndian
  import opened XBuffer
  import opened AdminFrame

  /** What comes of a message: it does not parse, or the processor gets it and fails or not. */
  datatype Verdict = Unparsed | Refused | Accepted

  /** The parser and the processor of a connection; `judge` may depend on all messages the
      processor has got before. */
  datatype Processor = Processor(judge: (seq<Msg>, Msg) -> Verdict, seen: seq<Msg>) {
    /** Commands below AC_HEART_BEAT have no message class to parse them. */
    function Judge(m: Msg): Verdict {
      if m.cmd < AC_HEART_BEAT then Unparsed else judge(seen, m)
    }

    function After(ms: seq<Msg>): Processor { this.(seen := seen + ms) }
  }

  /** `msgs` are the messages the processor gets, `rest` is what is left when no further frame is
      complete; `ok` is false when the connection is dropped (bad header, message that does not
      parse or that the processor refuses). */
  datatype Split = Split(msgs: seq<Msg>, rest: seq<byte>, ok: bool)

  /** The first message of a stream that starts with a whole frame. */
  function FirstMsg(s: seq<byte>): Msg
    requires |s| >= HEADER && HEADER + LengthField(s) <= |s|
  {
    Msg(CmdField(s), s[HEADER..HEADER + LengthField(s)])
  }

  /** The frames of a byte stream: the reference the handler is measured against. */
  function SplitFrames(s: seq<byte>, p: Processor): (r: Split)
    ensures |r.rest| <= |s|
    decreases |s|
  {
    if |s| < HEADER then Split([], s, true)
    else if !HeaderValid(s) then Split([], s, false)
    else if HEADER + LengthField(s) > |s| then Split([], s, true)
    else
      var m := FirstMsg(s);
      match p.Judge(m)
      case Unparsed => Split([], s, false)
      case Refused => Split([m], s, false)
      case Accepted =>
        var r := SplitFrames(s[HEADER + LengthField(s)..], p.After([m]));
        Split([m] + r.msgs, r.rest, r.ok)
  }

  // ---------------------------------------------------------------- the loop on the buffer

  datatype Exit = Short | Incomplete | Drop

  /** The loop of `handle_input`: frames are consumed until one is not complete. */
  function Drain(b: XBuf, p: Processor): (r: (XBuf, seq<Msg>, Exit))
    requires Sound(b)
    ensures Sound(r.0) && |r.0.buf| == |b.buf|
    ensures r.2.Incomplete? ==> Len(r.0) >= HEADER
    decreases Len(b)
  {
    if Len(b) < HEADER then (b, [], Short)
    else if !HeaderValid(Unread(b)) then (b, [], Drop)
    else if HEADER + LengthField(Unread(b)) > Len(b) then (b, [], Incomplete)
    else
      var s := Unread(b);
      var m := FirstMsg(s);
      match p.Judge(m)
      case Unparsed => (b, [], Drop)
      case Refused => (b, [m], Drop)
      case Accepted =>
        ConsumeKeeps(b, HEADER + LengthField(s));
        var (b', msgs, e) := Drain(Consume(b, HEADER + LengthField(s)), p.After([m]));
        (b', [m] + msgs, e)
  }

  /** One round of the loop. */
  lemma DrainStep(b: XBuf, p: Processor)
    requires Sound(b)
    ensures
      if Len(b) < HEADER then Drain(b, p) == (b, [], Short)
      else if !HeaderValid(Unread(b)) then Drain(b, p) == (b, [], Drop)
      else if HEADER + LengthField(Unread(b)) > Len(b) then Drain(b, p) == (b, [], Incomplete)
      else
        var s := Unread(b); var n, m := HEADER + LengthField(s), FirstMsg(s);
        match p.Judge(m)
        case Unparsed => Drain(b, p) == (b, [], Drop)
        case Refused => Drain(b, p) == (b, [m], Drop)
        case Accepted =>
          && Sound(Consume(b, n))
          && var r := Drain(Consume(b, n), p.After([m]));
             Drain(b, p) == (r.0, [m] + r.1, r.2)
  {
    hide HeaderValid, LengthField, CmdField, FirstMsg;
    if Len(b) >= HEADER && HEADER + LengthField(Unread(b)) <= Len(b) {
      ConsumeKeeps(b, HEADER + LengthField(Unread(b)));
    }
  }

  /** After the loop: `tidy`, and unless fewer bytes than a header are left, room for the frame
      whose header was found at the read position before the bytes were moved.  The size is
      passed on in 32 bits. */
  function Finish(b: XBuf, e: Exit): XBuf
    requires Sound(b) && (e.Incomplete? ==> Len(b) >= HEADER)
  {
    match e
    case Drop => b
    case Short => Tidy(b)
    case Incomplete =>
      var t := Tidy(b);
      EnsureCapacity(t, (FromLE32(t.buf, b.rpos + 4) + HEADER) % TWO32)
  }

  datatype Step = Step(b: XBuf, msgs: seq<Msg>, ok: bool)

  /** `handle_input` when the read returned the bytes `d`, or none because it would block. */
  function HandleInput(b: XBuf, d: seq<byte>, p: Processor): Step
    requires Sound(b) && b.rpos == 0 && |d| <= Capacity(b)
  {
    AppendKeeps(b, d);
    var b1 := Append(b, d);
    if Len(b1) < HEADER then Step(b1, [], true)
    else
      var (b2, msgs, e) := Drain(b1, p);
      Step(Finish(b2, e), msgs, !e.Drop?)
  }

  /** The loop hands out the frames of the unread bytes and leaves the rest unread; bytes left
      behind consumed ones keep the read position away from the front. */
  lemma {:induction false} DrainSplits(b: XBuf, p: Processor)
    requires Sound(b)
    ensures var (b', msgs, e) := Drain(b, p); var r := SplitFrames(Unread(b), p);
      && msgs == r.msgs && (e.Drop? <==> !r.ok) && Unread(b') == r.rest
      && b'.rpos == (if r.rest == [] then 0 else b.rpos + Len(b) - |r.rest|)
      && (e.Incomplete? ==> HeaderValid(r.rest) && HEADER + LengthField(r.rest) > |r.rest|)
    decreases Len(b)
  {
    hide HeaderValid, LengthField, CmdField, Drain, SplitFrames, Consume, FirstMsg;
    var s := Unread(b);
    DrainStep(b, p);
    SplitCases(s, p);
    if Len(b) >= HEADER && HeaderValid(s) && HEADER + LengthField(s) <= Len(b) {
      var n, m := HEADER + LengthField(s), FirstMsg(s);
      if p.Judge(m) == Accepted {
        ConsumeKeeps(b, n);
        DrainSplits(Consume(b, n), p.After([m]));
      }
    }
  }

  /** One frame of the reference. */
  lemma SplitCases(s: seq<byte>, p: Processor)
    ensures
      if |s| < HEADER then SplitFrames(s, p) == Split([], s, true)
      else if !HeaderValid(s) then SplitFrames(s, p) == Split([], s, false)
      else if HEADER + LengthField(s) > |s| then SplitFrames(s, p) == Split([], s, true)
      else
        var n, m := HEADER + LengthField(s), FirstMsg(s);
        match p.Judge(m)
        case Unparsed => SplitFrames(s, p) == Split([], s, false)
        case Refused => SplitFrames(s, p) == Split([m], s, false)
        case Accepted =>
          var r := SplitFrames(s[n..], p.After([m]));
          SplitFrames(s, p) == Split([m] + r.msgs, r.rest, r.ok)
  {
  }

  /** The receive buffer is in order: nothing consumed before the unread bytes. */
  predicate InOrder(b: XBuf) {
    Sound(b) && b.rpos == 0 && |b.buf| >= 16 * 1024
  }

  /** The size of the frame whose header the rest starts with, as it is passed on. */
  function SizeIn32(rest: seq<byte>): nat
    requires |rest| >= HEADER
  {
    (HEADER + LengthField(rest)) % TWO32
  }

  /** A full buffer, and a frame whose size is 0 in 32 bits: no room is made for it. */
  predicate NoRoom(b: XBuf, rest: seq<byte>) {
    |rest| == |b.buf| && |rest| >= HEADER && SizeIn32(rest) == 0
  }

  /** The frame does not fit and together with what is there takes 2^32 bytes or more: the new
      size wraps and the block gets smaller than its contents. */
  predicate Shrinks(b: XBuf, rest: seq<byte>) {
    |rest| >= HEADER && |b.buf| < |rest| + SizeIn32(rest) && |rest| + SizeIn32(rest) >= TWO32
  }

  /** No byte of the stream is left behind a consumed frame. */
  predicate CleanCut(s: seq<byte>, r: Split) { r.rest == [] || |r.rest| == |s| }

  /** Finishing on a buffer with nothing consumed keeps it in order unless the block shrinks;
      otherwise the read position stays where it was, and the unread bytes are no longer behind
      it. */
  lemma FinishKeeps(b: XBuf, e: Exit)
    requires Sound(b) && !e.Drop? && |b.buf| >= 16 * 1024 && (e.Incomplete? ==> Len(b) >= HEADER)
    requires e.Short? ==> Len(b) < HEADER
    ensures var f := Finish(b, e);
      && (b.rpos == 0 ==> (InOrder(f) && Unread(f) == Unread(b) <==> !Shrinks(b, Unread(b))))
      && (b.rpos == 0 && !Shrinks(b, Unread(b)) ==> (Capacity(f) == 0 <==> NoRoom(b, Unread(b))))
      && (b.rpos == 0 && Shrinks(b, Unread(b)) ==> f.bad && |f.buf| < f.wpos == Len(b))
      && (b.rpos > 0 ==> f.bad || (f.rpos == b.rpos && f.wpos <= Len(b) && f.wpos <= |f.buf|))
  {
    hide FromLE32, EnsureCapacity;
    if b.rpos == 0 {
      if e.Incomplete? {
        LengthInBuffer(b);
        EnsureCapacityKeeps(b, SizeIn32(Unread(b)));
      }
    } else {
      TidyLoses(b);
      if e.Incomplete? {
        AnyCapacity(Tidy(b), (FromLE32(Tidy(b).buf, b.rpos + 4) + HEADER) % TWO32);
      }
    }
  }

  /** Whatever room is asked for, the read position does not move. */
  lemma AnyCapacity(b: XBuf, c: nat)
    requires b.wpos <= |b.buf|
    ensures var e := EnsureCapacity(b, c); e.bad || (e.rpos == b.rpos && e.wpos <= b.wpos && e.wpos <= |e.buf|)
  {
  }

  lemma LengthInBuffer(b: XBuf)
    requires Sound(b) && b.rpos == 0 && Len(b) >= HEADER
    ensures FromLE32(b.buf, 4) == LengthField(Unread(b)) < TWO32
  {
  }

  /** One call of `handle_input`: the processor gets exactly the messages of the complete frames,
      in order, and the rest is kept for the next call exactly when the cut is clean, that is,
      nothing is left over or no frame was complete, and the block does not shrink.  Then there is
      room for the next read unless `NoRoom` holds. */
  lemma InputStep(b: XBuf, d: seq<byte>, p: Processor)
    requires InOrder(b) && |d| <= Capacity(b)
    ensures var s := Unread(b) + d; var r := SplitFrames(s, p); var step := HandleInput(b, d, p);
      && step.msgs == r.msgs && step.ok == r.ok
      && (r.ok ==> (InOrder(step.b) && Unread(step.b) == r.rest <==> CleanCut(s, r) && !Shrinks(b, r.rest)))
      && (r.ok && CleanCut(s, r) && !Shrinks(b, r.rest) ==> (Capacity(step.b) == 0 <==> NoRoom(b, r.rest)))
      && (r.ok && CleanCut(s, r) && Shrinks(b, r.rest) ==> step.b.bad && |step.b.buf| < |r.rest|)
      && (r.ok && !CleanCut(s, r) && !step.b.bad ==>
            step.b.rpos == |s| - |r.rest| && step.b.wpos <= |r.rest| && step.b.wpos <= |step.b.buf|)
  {
    hide SplitFrames, Drain, Finish, Append;
    AppendKeeps(b, d);
    AppendSize(b, d);
    var b1, s := Append(b, d), Unread(b) + d;
    var r := SplitFrames(s, p);
    DrainSplits(b1, p);
    SplitCases(s, p);
    if |s| >= HEADER && r.ok {
      var (b2, msgs, e) := Drain(b1, p);
      DrainExit(b1, p);
      FinishKeeps(b2, e);
    }
  }

  lemma AppendSize(b: XBuf, d: seq<byte>)
    requires b.wpos + |d| <= |b.buf|
    ensures |Append(b, d).buf| == |b.buf| && Append(b, d).wpos == b.wpos + |d|
  {
  }

  lemma {:induction false} DrainExit(b: XBuf, p: Processor)
    requires Sound(b)
    ensures Drain(b, p).2.Short? ==> Len(Drain(b, p).0) < HEADER
    decreases Len(b)
  {
    hide FromLE32, Unread;
    var s := Unread(b);
    if Len(b) >= HEADER && HeaderValid(s) && HEADER + LengthField(s) <= Len(b) {
      ConsumeKeeps(b, HEADER + LengthField(s));
      DrainExit(Consume(b, HEADER + LengthField(s)), p.After([FirstMsg(s)]));
    }
  }

  /** After a cut that is not clean, the next read starts with a negative length or short of at
      least as many bytes as the frames consumed before the cut, whatever arrives. */
  lemma TornRead(b: XBuf, d: seq<byte>, p: Processor, more: seq<byte>)
    requires InOrder(b) && |d| <= Capacity(b)
    requires var s := Unread(b) + d; var r := SplitFrames(s, p); r.ok && !CleanCut(s, r)
    ensures var s := Unread(b) + d; var rest := SplitFrames(s, p).rest;
      var lost := |s| - |rest|; var next := Tidy(HandleInput(b, d, p).b);
      lost > 0 && (next.bad || next.wpos + |more| - next.rpos <= |rest| + |more| - 2 * lost)
  {
    hide SplitFrames, HandleInput;
    InputStep(b, d, p);
  }

  /** A read that ends inside the header of the next frame, after a complete one: the frame is
      handed out, and the next read moves a negative number of bytes. */
  lemma CutInsideHeaderTears(b: XBuf, m: Msg, t: seq<byte>, p: Processor)
    requires InOrder(b) && Unread(b) == [] && Supported(m) && p.Judge(m) == Accepted
    requires 0 < |t| < HEADER && |Frame(m) + t| <= Capacity(b)
    ensures var step := HandleInput(b, Frame(m) + t, p);
      step.ok && step.msgs == [m] && (step.b.bad || step.b.wpos <= |step.b.buf|) && Tidy(step.b).bad
  {
    hide Frame, FromLE32, HandleInput;
    var d := Frame(m) + t;
    FrameFields(m, t);
    assert Unread(b) + d == d;
    assert SplitFrames(t, p.After([m])) == Split([], t, true);
    assert FirstMsg(d) == m;
    assert SplitFrames(d, p) == Split([m] + [], t, true);
    InputStep(b, d, p);
  }

  /** A valid header that announces a body of 2^32 - 24 to 2^32 - 13 bytes: the cut is clean, and
      the block is cut below the 12 bytes it holds. */
  lemma HugeLengthShrinks(b: XBuf, d: seq<byte>, p: Processor)
    requires InOrder(b) && Unread(b) == [] && |d| == HEADER <= Capacity(b)
    requires HeaderValid(d) && TWO32 - 2 * HEADER <= LengthField(d) < TWO32 - HEADER
    ensures var step := HandleInput(b, d, p);
      step.ok && step.msgs == [] && step.b.bad && |step.b.buf| < HEADER
  {
    hide FromLE32, HandleInput;
    assert Unread(b) + d == d;
    InputStep(b, d, p);
  }

  /** There is such a header. */
  lemma HugeLengthExists()
    ensures exists d: seq<byte> ::
      |d| == HEADER && HeaderValid(d) && TWO32 - 2 * HEADER <= LengthField(d) < TWO32 - HEADER
  {
    hide LE32, FromLE32;
    var a, b, c := LE32(MAGIC), LE32(TWO32 - HEADER - 1), LE32(AC_HEART_BEAT);
    LE32RoundTrip(MAGIC, [], b + c);
    LE32RoundTrip(TWO32 - HEADER - 1, a, c);
    LE32RoundTrip(AC_HEART_BEAT, a + b, []);
    var d := a + b + c;
    assert d == [] + a + (b + c) && d == a + b + c && d == (a + b) + c + [];
  }

  // ---------------------------------------------------------------- bad headers

  /** On bytes: anything but "ACTT" in front, or a command that is 0 or at least 18. */
  predicate BadHeader(d: seq<byte>)
    requires |d| >= 12
  {
    d[..4] != [0x41, 0x43, 0x54, 0x54] || !(0 < Word(d[8], d[9], d[10], d[11]) < 18)
  }

  /** A read that starts with a bad header drops the connection, and the processor gets nothing. */
  lemma BadHeaderDrops(b: XBuf, d: seq<byte>, p: Processor)
    requires InOrder(b) && Unread(b) == [] && 12 <= |d| <= Capacity(b) && BadHeader(d)
    ensures !HandleInput(b, d, p).ok && HandleInput(b, d, p).msgs == []
  {
    hide HandleInput, HeaderValid, SplitFrames;
    HeaderValidBytes(d);
    assert Unread(b) + d == d;
    SplitCases(d, p);
    InputStep(b, d, p);
  }

  /** A bad header behind complete frames: exactly their messages are handed over. */
  lemma BadHeaderBehindDrops(b: XBuf, ms: seq<Msg>, d: seq<byte>, p: Processor)
    requires InOrder(b) && Unread(b) == [] && |d| >= 12 && BadHeader(d)
    requires (forall i :: 0 <= i < |ms| ==> MsgOk(ms[i])) && AcceptsAll(p, ms) && |Frames(ms) + d| <= Capacity(b)
    ensures var step := HandleInput(b, Frames(ms) + d, p); !step.ok && step.msgs == ms
  {
    hide HandleInput, HeaderValid, SplitFrames, Frames;
    var s := Frames(ms) + d;
    HeaderValidBytes(d);
    SplitOfFrames(ms, p);
    SplitContinues(Frames(ms), d, p);
    SplitCases(d, p.After(ms));
    assert [] + d == d && ms + [] == ms && Unread(b) + s == s;
    InputStep(b, s, p);
  }

  /** A complete frame of a command from 1 to 7, for which there is no message class. */
  lemma UnknownCommandDrops(b: XBuf, m: Msg, p: Processor)
    requires InOrder(b) && Unread(b) == [] && MsgOk(m) && 0 < m.cmd < 8 && |Frame(m)| <= Capacity(b)
    ensures !HandleInput(b, Frame(m), p).ok && HandleInput(b, Frame(m), p).msgs == []
  {
    hide HandleInput, FromLE32, Frame, SplitFrames;
    FrameFields(m, []);
    var s := Frame(m);
    assert s + [] == s && Unread(b) + s == s;
    SplitCases(s, p);
    InputStep(b, s, p);
  }

  /** One of the commands 8 to 17, whole, is handed over, and kept when it is accepted. */
  lemma KnownCommandArrives(b: XBuf, m: Msg, p: Processor)
    requires InOrder(b) && Unread(b) == [] && MsgOk(m) && 8 <= m.cmd < 18 && |Frame(m)| <= Capacity(b)
    ensures var step := HandleInput(b, Frame(m), p);
      match p.judge(p.seen, m)
      case Unparsed => !step.ok && step.msgs == []
      case Refused => !step.ok && step.msgs == [m]
      case Accepted => step.ok && step.msgs == [m] && InOrder(step.b) && Unread(step.b) == []
  {
    hide HandleInput, FromLE32, Frame, SplitFrames;
    FrameFields(m, []);
    var s := Frame(m);
    assert s + [] == s && Unread(b) + s == s && FirstMsg(s) == m;
    SplitCases(s, p);
    SplitCases([], p.After([m]));
    assert s[HEADER + LengthField(s)..] == [] && [m] + [] == [m];
    InputStep(b, s, p);
  }

  // ---------------------------------------------------------------- runs

  /** Every read returns what fits, or nothing yet, every cut is clean, the block never shrinks
      and nothing is dropped. */
  predicate CleanRun(b: XBuf, chunks: seq<seq<byte>>, p: Processor)
    requires InOrder(b)
    decreases |chunks|
  {
    chunks == [] || (
      && |chunks[0]| <= Capacity(b)
      && var s := Unread(b) + chunks[0]; var r := SplitFrames(s, p);
         && r.ok && CleanCut(s, r) && !Shrinks(b, r.rest)
         && (InputStep(b, chunks[0], p); CleanRun(HandleInput(b, chunks[0], p).b, chunks[1..], p.After(r.msgs))))
  }

  /** The messages handed to the processor over a run of reads. */
  function Handled(b: XBuf, chunks: seq<seq<byte>>, p: Processor): seq<Msg>
    requires InOrder(b) && CleanRun(b, chunks, p)
    decreases |chunks|
  {
    if chunks == [] then []
    else
      InputStep(b, chunks[0], p);
      var step := HandleInput(b, chunks[0], p);
      step.msgs + Handled(step.b, chunks[1..], p.After(step.msgs))
  }

  /** A stream starts with a frame that is complete and accepted. */
  predicate StartsWithFrame(s: seq<byte>, p: Processor) {
    |s| >= HEADER && HeaderValid(s) && HEADER + LengthField(s) <= |s| && p.Judge(FirstMsg(s)) == Accepted
  }

  lemma SplitStep(s: seq<byte>, p: Processor)
    ensures if StartsWithFrame(s, p) then
        var n, m := HEADER + LengthField(s), FirstMsg(s);
        var r := SplitFrames(s[n..], p.After([m]));
        SplitFrames(s, p) == Split([m] + r.msgs, r.rest, r.ok)
      else
        SplitFrames(s, p).rest == s && (SplitFrames(s, p).ok ==> SplitFrames(s, p).msgs == [])
  {
  }

  lemma StartsWithFramePrefix(s: seq<byte>, d: seq<byte>, p: Processor)
    requires StartsWithFrame(s, p)
    ensures StartsWithFrame(s + d, p) && LengthField(s + d) == LengthField(s) && FirstMsg(s + d) == FirstMsg(s)
  {
    hide HeaderValid, LengthField, CmdField;
    HeaderOfPrefix(s, d);
    var n := HEADER + LengthField(s);
    assert (s + d)[HEADER..n] == s[HEADER..n];
  }

  /** The processor after two lots of messages. */
  lemma AfterBoth(p: Processor, ms: seq<Msg>, ns: seq<Msg>)
    ensures p.After(ms).After(ns) == p.After(ms + ns) && p.After([]) == p
  {
    assert p.seen + ms + ns == p.seen + (ms + ns) && p.seen + [] == p.seen;
  }

  /** Splitting may stop at any point and go on with the rest. */
  lemma {:induction false} SplitContinues(s: seq<byte>, d: seq<byte>, p: Processor)
    requires SplitFrames(s, p).ok
    ensures var r := SplitFrames(s, p); var r' := SplitFrames(r.rest + d, p.After(r.msgs));
      SplitFrames(s + d, p) == Split(r.msgs + r'.msgs, r'.rest, r'.ok)
    decreases |s|
  {
    hide SplitFrames, HeaderValid, LengthField, CmdField, FirstMsg;
    SplitStep(s, p);
    if StartsWithFrame(s, p) {
      var n, m := HEADER + LengthField(s), FirstMsg(s);
      StartsWithFramePrefix(s, d, p);
      SplitStep(s + d, p);
      assert (s + d)[n..] == s[n..] + d;
      SplitContinues(s[n..], d, p.After([m]));
      var r := SplitFrames(s[n..], p.After([m]));
      AfterBoth(p, [m], r.msgs);
      var r' := SplitFrames(r.rest + d, p.After([m] + r.msgs));
      assert [m] + (r.msgs + r'.msgs) == ([m] + r.msgs) + r'.msgs;
    } else {
      AfterBoth(p, [], []);
      var r' := SplitFrames(s + d, p);
      assert [] + r'.msgs == r'.msgs;
    }
  }

  lemma HeaderOfPrefix(s: seq<byte>, d: seq<byte>)
    requires |s| >= HEADER
    ensures HeaderValid(s + d) == HeaderValid(s)
    ensures LengthField(s + d) == LengthField(s) && CmdField(s + d) == CmdField(s)
  {
  }

  /** Over any run of reads whose cuts are clean and whose block never shrinks, the processor gets
      exactly the messages of the stream, once each and in order, however it was cut into reads. */
  lemma {:induction false} InputRun(b: XBuf, chunks: seq<seq<byte>>, p: Processor)
    requires InOrder(b) && CleanRun(b, chunks, p)
    requires SplitFrames(Unread(b), p) == Split([], Unread(b), true)
    ensures var r := SplitFrames(Unread(b) + Flatten(chunks), p);
      r.ok && Handled(b, chunks, p) == r.msgs
    decreases |chunks|
  {
    hide SplitFrames, HandleInput;
    var s := Unread(b);
    if chunks == [] {
      assert s + Flatten(chunks) == s;
    } else {
      var d, rest := chunks[0], Flatten(chunks[1..]);
      InputStep(b, d, p);
      SplitContinues(s + d, rest, p);
      SplitRest(s + d, p);
      var q := p.After(SplitFrames(s + d, p).msgs);
      InputRun(HandleInput(b, d, p).b, chunks[1..], q);
      assert s + Flatten(chunks) == (s + d) + rest;
    }
  }

  /** What is left over holds no complete frame. */
  lemma {:induction false} SplitRest(s: seq<byte>, p: Processor)
    ensures var r := SplitFrames(s, p); r.ok ==> SplitFrames(r.rest, p.After(r.msgs)) == Split([], r.rest, true)
    decreases |s|
  {
    hide SplitFrames, HeaderValid, LengthField, FirstMsg;
    SplitCases(s, p);
    AfterBoth(p, [], []);
    if StartsWithFrame(s, p) {
      var n, m := HEADER + LengthField(s), FirstMsg(s);
      SplitRest(s[n..], p.After([m]));
      AfterBoth(p, [m], SplitFrames(s[n..], p.After([m])).msgs);
    }
  }

  /** The processor accepts the messages one after the other. */
  predicate AcceptsAll(p: Processor, ms: seq<Msg>)
    decreases |ms|
  {
    ms == [] || (Supported(ms[0]) && p.Judge(ms[0]) == Accepted && AcceptsAll(p.After([ms[0]]), ms[1..]))
  }

  /** The frames `SerializeToSendBuf` produces split back into their messages. */
  lemma {:induction false} SplitOfFrames(ms: seq<Msg>, p: Processor)
    requires (forall i :: 0 <= i < |ms| ==> MsgOk(ms[i])) && AcceptsAll(p, ms)
    ensures SplitFrames(Frames(ms), p) == Split(ms, [], true)
    decreases |ms|
  {
    hide FromLE32, Frame;
    if ms != [] {
      FrameFields(ms[0], Frames(ms[1..]));
      assert FirstMsg(Frames(ms)) == ms[0];
      SplitOfFrames(ms[1..], p.After([ms[0]]));
      assert ms == [ms[0]] + ms[1..];
    }
  }
}
