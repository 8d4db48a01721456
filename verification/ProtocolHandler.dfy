/** The sending side of `ProtocolHandler` on values. */
module ProtocolOutput {
  import opened Basics
  import opened Bytes
  import opened LittleEndian
  import opened XBuffer
  import opened AdminFrame

  /** `handle_output` fills the buffer up to here before it writes. */
  const FILL := 4096

  predicate MsgsOk(ms: seq<Msg>) { forall i :: 0 <= i < |ms| ==> MsgOk(ms[i]) }

  /** The bytes of a message with its header. */
  function Need(m: Msg): nat { HEADER + |m.body| }

  /** `SerializeToSendBuf`; a read position past the write position is a negative length, and a
      block that was cut short is written past its end. */
  function Serialize(b: XBuf, m: Msg): XBuf
    requires Sound(b) && MsgOk(m)
  {
    EnsureCapacityKeeps(b, Need(m));
    var e := EnsureCapacity(b, Need(m));
    if e.bad then e
    else
      var r := Append(e, Frame(m));
      if r.rpos > r.wpos then r.(bad := true) else r
  }

  /** The frame is added behind the unread bytes exactly unless making room does harm. */
  lemma SerializeExact(b: XBuf, m: Msg)
    requires Sound(b) && MsgOk(m)
    ensures var r := Serialize(b, m);
      && (Sound(r) && Unread(r) == Unread(b) + Frame(m) <==> !Harms(b, Need(m)))
      && (!Harms(b, Need(m)) ==> Len(r) == Len(b) + Need(m) && r.rpos == b.rpos)
  {
    hide Frame, Append, EnsureCapacity, TidiesFor, Wraps;
    EnsureCapacityKeeps(b, Need(m));
    var e := EnsureCapacity(b, Need(m));
    if !Harms(b, Need(m)) {
      AppendKeeps(e, Frame(m));
    } else if TidiesFor(b, Need(m)) {
      TidyHarms(b, m);
    }
  }

  /** A frame behind a tidied buffer does not follow the unread bytes. */
  lemma TidyHarms(b: XBuf, m: Msg)
    requires Sound(b) && MsgOk(m) && TidiesFor(b, Need(m))
    ensures var r := Serialize(b, m); !(Sound(r) && Unread(r) == Unread(b) + Frame(m))
  {
    hide Frame;
    TidyLoses(b);
  }

  /** Bytes written, bytes buffered and messages queued are all messages queued so far, in order. */
  ghost predicate Conserves(wire: seq<byte>, b: XBuf, queue: seq<Msg>, queued: seq<Msg>) {
    && Sound(b) && MsgsOk(queue) && MsgsOk(queued)
    && wire + Unread(b) + Frames(queue) == Frames(queued)
  }

  lemma SerializeKeeps(wire: seq<byte>, b: XBuf, queue: seq<Msg>, queued: seq<Msg>)
    requires Conserves(wire, b, queue, queued) && queue != [] && !Harms(b, Need(queue[0]))
    ensures Conserves(wire, Serialize(b, queue[0]), queue[1..], queued) && Len(Serialize(b, queue[0])) > 0
  {
    hide Serialize, Frame, Frames, Harms, Unread;
    SerializeExact(b, queue[0]);
    FramesCons(queue);
    var u, f, r := Unread(b), Frame(queue[0]), Frames(queue[1..]);
    assert wire + (u + f) + r == wire + u + (f + r);
  }

  lemma FramesCons(ms: seq<Msg>)
    requires MsgsOk(ms) && ms != []
    ensures MsgsOk(ms[1..]) && Frames(ms) == Frame(ms[0]) + Frames(ms[1..])
  {
  }

  lemma WriteKeeps(wire: seq<byte>, b: XBuf, queue: seq<Msg>, queued: seq<Msg>, k: nat)
    requires Conserves(wire, b, queue, queued) && k <= Len(b)
    ensures Conserves(wire + Unread(b)[..k], Consume(b, k), queue, queued)
    ensures Len(Consume(b, k)) == Len(b) - k
  {
    hide Frames;
    ConsumeKeeps(b, k);
    assert Unread(b) == Unread(b)[..k] + Unread(b)[k..];
    assert wire + Unread(b)[..k] + Unread(b)[k..] == wire + Unread(b);
  }

  lemma QueueKeeps(wire: seq<byte>, b: XBuf, queue: seq<Msg>, queued: seq<Msg>, m: Msg)
    requires Conserves(wire, b, queue, queued) && MsgOk(m)
    ensures Conserves(wire, b, queue + [m], queued + [m])
  {
    hide Frames, Frame;
    FramesAppend(queue, [m]);
    FramesAppend(queued, [m]);
  }

  /** Making room in an empty buffer does no harm: the first message after a pause is always
      sent whole. */
  lemma EmptyNeverHarms(b: XBuf, m: Msg)
    requires Sound(b) && Len(b) == 0 && MsgOk(m)
    ensures !Harms(b, Need(m))
  {
  }

  /** Filling the buffer from the queue comes to a message for which making room does harm. */
  predicate Tears(b: XBuf, queue: seq<Msg>)
    requires Sound(b) && MsgsOk(queue)
    decreases |queue|
  {
    && Len(b) < FILL && queue != []
    && (Harms(b, Need(queue[0])) ||
        (Sound(Serialize(b, queue[0])) && Tears(Serialize(b, queue[0]), queue[1..])))
  }

  /** Only a buffer that was sent in part can be damaged. */
  lemma {:induction false} WholeNeverTears(b: XBuf, queue: seq<Msg>)
    requires Sound(b) && MsgsOk(queue) && b.rpos == 0
    ensures !Tears(b, queue)
    decreases |queue|
  {
    hide Serialize;
    if Len(b) < FILL && queue != [] {
      SerializeExact(b, queue[0]);
      WholeNeverTears(Serialize(b, queue[0]), queue[1..]);
    }
  }

  /** When one message has gone out in part, the next one damages the stream exactly when fewer
      than 4096 bytes are left of the first and the second does not fit behind it, but does with
      the room of the bytes sent, or else needs a block of 2^32 bytes or more. */
  lemma SecondMessageTears(b: XBuf, m: Msg, n: Msg, k: nat)
    requires Sound(b) && Len(b) == 0 && MsgOk(m) && MsgOk(n) && 0 < k < Need(m) <= |b.buf|
    ensures var c, room := Consume(Serialize(b, m), k), |b.buf| - Need(m);
      && Sound(c)
      && (Tears(c, [n]) <==>
            Need(m) - k < 4096 && room < Need(n) && (Need(n) <= room + k || Need(m) + Need(n) >= TWO32))
  {
    hide Frame, Serialize;
    FreshSerialize(b, m);
    ConsumeKeeps(Serialize(b, m), k);
    assert [n][1..] == [];
  }

  lemma FreshSerialize(b: XBuf, m: Msg)
    requires Sound(b) && Len(b) == 0 && MsgOk(m) && Need(m) <= |b.buf|
    ensures var s := Serialize(b, m); Sound(s) && s.rpos == 0 && s.wpos == Need(m) && |s.buf| == |b.buf|
  {
    hide Frame;
    SerializeExact(b, m);
  }

  /** The bytes of the first `i` messages, framed. */
  function FrameBytes(queue: seq<Msg>, i: nat): nat
    requires i <= |queue|
  {
    if i == 0 then 0 else Need(queue[0]) + FrameBytes(queue[1..], i - 1)
  }

  /** The room behind the first `i` messages; messages that do not fit make the buffer just
      large enough. */
  function RoomAfter(b: XBuf, queue: seq<Msg>, i: nat): nat
    requires Sound(b) && i <= |queue|
  {
    var room := Capacity(b) - FrameBytes(queue, i);
    if room < 0 then 0 else room
  }

  /** Message `i` comes up before the buffer is full enough and does not fit behind the ones
      before it, but does with the room of the bytes already sent, or else needs a block of 2^32
      bytes or more. */
  predicate TearsAt(b: XBuf, queue: seq<Msg>, i: nat)
    requires Sound(b) && i < |queue|
  {
    var room, need := RoomAfter(b, queue, i), Need(queue[i]);
    && Len(b) + FrameBytes(queue, i) < FILL && room < need
    && (need <= room + b.rpos || b.wpos + FrameBytes(queue, i) + need >= TWO32)
  }

  /** The damage read off the sizes: which message, if any, does the harm. */
  lemma {:induction false} TearsExactly(b: XBuf, queue: seq<Msg>)
    requires Sound(b) && MsgsOk(queue)
    ensures Tears(b, queue) <==> exists i :: 0 <= i < |queue| && TearsAt(b, queue, i)
    decreases |queue|
  {
    hide Serialize, TearsAt, Tears;
    if queue == [] {
      TearsNothing(b);
    } else {
      TearsHere(b, queue);
      if Len(b) >= FILL {
        forall i | 0 <= i < |queue| ensures !TearsAt(b, queue, i) { TearsLate(b, queue, i); }
      } else if Harms(b, Need(queue[0])) {
        assert TearsAt(b, queue, 0);
      } else {
        var c := Serialize(b, queue[0]);
        TearsStep(b, queue);
        TearsExactly(c, queue[1..]);
        forall i | 0 < i < |queue| ensures TearsAt(b, queue, i) <==> TearsAt(c, queue[1..], i - 1) {
          TearsShift(b, queue, i);
        }
        if Tears(c, queue[1..]) {
          var i :| 0 <= i < |queue[1..]| && TearsAt(c, queue[1..], i);
          assert TearsAt(b, queue, i + 1);
        }
      }
    }
  }

  lemma TearsNothing(b: XBuf)
    requires Sound(b)
    ensures !Tears(b, [])
  {
  }

  lemma TearsHere(b: XBuf, queue: seq<Msg>)
    requires Sound(b) && MsgsOk(queue) && queue != []
    ensures TearsAt(b, queue, 0) <==> Len(b) < FILL && Harms(b, Need(queue[0]))
    ensures Len(b) >= FILL ==> !Tears(b, queue)
    ensures Len(b) < FILL && Harms(b, Need(queue[0])) ==> Tears(b, queue)
  {
  }

  lemma TearsLate(b: XBuf, queue: seq<Msg>, i: nat)
    requires Sound(b) && i < |queue| && Len(b) >= FILL
    ensures !TearsAt(b, queue, i)
  {
  }

  lemma TearsShift(b: XBuf, queue: seq<Msg>, i: nat)
    requires Sound(b) && MsgsOk(queue) && 0 < i < |queue| && !Harms(b, Need(queue[0]))
    ensures Sound(Serialize(b, queue[0]))
    ensures TearsAt(b, queue, i) <==> TearsAt(Serialize(b, queue[0]), queue[1..], i - 1)
  {
    hide Serialize;
    SerializeExact(b, queue[0]);
    SerializeRoom(b, queue[0]);
  }

  /** What is left behind a frame that was added. */
  lemma SerializeRoom(b: XBuf, m: Msg)
    requires Sound(b) && MsgOk(m) && !Harms(b, Need(m))
    ensures var c, n := Serialize(b, m), Need(m);
      c.wpos == b.wpos + n <= |c.buf| && Capacity(c) == if n <= Capacity(b) then Capacity(b) - n else 0
  {
    hide Frame, EnsureCapacity, Harms;
    EnsureCapacityKeeps(b, Need(m));
  }

  lemma TearsStep(b: XBuf, queue: seq<Msg>)
    requires Sound(b) && MsgsOk(queue) && Len(b) < FILL && queue != []
    requires !Harms(b, Need(queue[0]))
    ensures Sound(Serialize(b, queue[0])) && MsgsOk(queue[1..])
    ensures Tears(b, queue) == Tears(Serialize(b, queue[0]), queue[1..])
  {
    hide Serialize, Harms;
    SerializeExact(b, queue[0]);
  }
}

/** `ProtocolHandler` */
module ProtocolHandler {
  import opened Bytes
  import opened LittleEndian
  import opened XBuffer
  import opened AdminFrame
  import opened ProtocolInput
  import opened ProtocolOutput

  /** What `readfrom` meets: bytes, none yet, or a peer that closed or failed.  A read into a
      full buffer returns 0, which reads as a closed peer. */
  datatype ReadResult = Bytes(d: seq<byte>) | WouldBlock | Gone

  class Handler {
    const judge: (seq<Msg>, Msg) -> Verdict   // parser and processor
    var recvBuf: XBuf
    var sendBuf: XBuf
    var queue: seq<Msg>           // m_queuedMessage
    var notify: bool              // EPOLLOUT is in the mask
    var dead: bool                // deletion is scheduled
    var torn: bool                // making room for a further frame has damaged the send buffer

    var handled: seq<Msg>         // every message given to the processor

    ghost var queued: seq<Msg>    // every message given to QueueMessage
    ghost var wire: seq<byte>     // every byte the kernel took
    ghost var shorts: nat         // writes of which the kernel left something
    ghost var failures: nat       // writes that failed

    /** Nothing is lost, and the handler never waits for an event it has not asked for. */
    ghost predicate SendOk()
      reads this
    {
      && Conserves(wire, sendBuf, queue, queued)
      && (queue != [] ==> Len(sendBuf) > 0)
      && (Len(sendBuf) > 0 ==> notify)
    }

    ghost predicate Valid()
      reads this
    {
      !dead && !torn ==> SendOk()
    }

    /** The processor as it is now. */
    function Proc(): Processor
      reads this
    {
      Processor(judge, handled)
    }

    constructor (judge: (seq<Msg>, Msg) -> Verdict)
      ensures Valid() && !dead && !torn && queued == [] && wire == [] && handled == []
      ensures this.judge == judge && InOrder(recvBuf) && Unread(recvBuf) == [] && Unread(sendBuf) == []
      ensures |recvBuf.buf| == |sendBuf.buf| == 16384
    {
      this.judge := judge;
      recvBuf := XBuf(Zeros(16 * 1024), 0, 0, false);
      sendBuf := XBuf(Zeros(16 * 1024), 0, 0, false);
      queue, notify, dead, torn := [], false, false, false;
      queued, wire, handled := [], [], [];
      shorts, failures := 0, 0;
    }

    /** `m_sendBuf.writeto`: the kernel takes any part, would block, or fails. */
    method WriteTo() returns (rtn: int)
      requires Conserves(wire, sendBuf, queue, queued)
      modifies this`sendBuf, this`wire, this`shorts, this`failures
      ensures Conserves(wire, sendBuf, queue, queued) && Len(sendBuf) <= Len(old(sendBuf))
      ensures old(wire) <= wire && (rtn < 0 ==> wire == old(wire) && sendBuf == old(sendBuf))
      ensures failures == old(failures) + if rtn < 0 then 1 else 0
      ensures shorts == old(shorts) + if rtn >= 0 && Len(sendBuf) > 0 then 1 else 0
    {
      hide Conserves;
      if * {
        failures := failures + 1;
        return -1;
      }
      assert Sound(sendBuf) by { Bounds(wire, sendBuf, queue, queued); }
      var k :| 0 <= k <= Len(sendBuf);
      WriteKeeps(wire, sendBuf, queue, queued, k);
      wire := wire + Unread(sendBuf)[..k];
      sendBuf := Consume(sendBuf, k);
      shorts := shorts + if Len(sendBuf) > 0 then 1 else 0;
      rtn := k;
    }

    static lemma Bounds(wire: seq<byte>, b: XBuf, queue: seq<Msg>, queued: seq<Msg>)
      requires Conserves(wire, b, queue, queued)
      ensures Sound(b) && MsgsOk(queue)
    {
    }

    method KickOutput()
      requires !dead && !torn && Conserves(wire, sendBuf, queue, queued)
      requires Len(sendBuf) > 0 ==> notify
      modifies this`sendBuf, this`wire, this`queue, this`notify, this`dead, this`shorts, this`failures
      ensures dead <==> failures > old(failures)
      ensures !dead ==> Conserves(wire, sendBuf, queue, queued) && (Len(sendBuf) > 0 ==> notify)
      ensures !dead && old(Len(sendBuf)) == 0 && Len(sendBuf) > 0 ==> shorts > old(shorts)
      ensures !dead ==> if old(Len(sendBuf) == 0 && queue != []) then queue == old(queue)[1..]
                        else queue == old(queue) && sendBuf == old(sendBuf)
    {
      hide Serialize, Harms, Frames;
      if Len(sendBuf) > 0 || queue == [] {
        return;
      }
      EmptyNeverHarms(sendBuf, queue[0]);
      SerializeKeeps(wire, sendBuf, queue, queued);
      sendBuf := Serialize(sendBuf, queue[0]);
      queue := queue[1..];
      var rtn := WriteTo();
      if rtn < 0 {
        dead := true;
        return;
      }
      if Len(sendBuf) > 0 {
        notify := true;
      }
    }

    method QueueMessage(m: Msg)
      requires Valid() && !dead && !torn && MsgOk(m)
      modifies this`sendBuf, this`wire, this`queue, this`notify, this`dead, this`queued, this`shorts, this`failures
      ensures Valid() && queued == old(queued) + [m] && (dead <==> failures > old(failures))
      ensures !dead && old(Len(sendBuf)) == 0 && Len(sendBuf) > 0 ==> shorts > old(shorts)
    {
      hide Frames, Frame;
      QueueKeeps(wire, sendBuf, queue, queued, m);
      queue := queue + [m];
      queued := queued + [m];
      if |queue| == 1 && Len(sendBuf) == 0 {
        KickOutput();
      }
    }

    /** The inner loop of `handle_output`: fill the buffer up to 4096 bytes.  It stops early when
        making room does harm, because the stream is damaged from there on. */
    method Fill()
      requires !torn && Conserves(wire, sendBuf, queue, queued)
      modifies this`sendBuf, this`queue, this`torn
      ensures torn <==> exists i :: 0 <= i < |old(queue)| && TearsAt(old(sendBuf), old(queue), i)
      ensures !torn ==> Conserves(wire, sendBuf, queue, queued)
      ensures !torn ==> |queue| <= |old(queue)| && (old(queue) != [] ==> Len(sendBuf) > 0)
      ensures !torn && |queue| == |old(queue)| ==> sendBuf == old(sendBuf) && queue == old(queue)
      ensures !torn ==> queue == [] || Len(sendBuf) >= 4096
    {
      hide Serialize, Harms, Frames, TearsAt;
      TearsExactly(sendBuf, queue);
      while Len(sendBuf) < FILL && queue != []
        invariant !torn && Conserves(wire, sendBuf, queue, queued)
        invariant Tears(sendBuf, queue) == Tears(old(sendBuf), old(queue))
        invariant |queue| <= |old(queue)|
        invariant |queue| == |old(queue)| ==> sendBuf == old(sendBuf) && queue == old(queue)
        invariant |queue| < |old(queue)| ==> Len(sendBuf) > 0
        decreases |queue|
      {
        if Harms(sendBuf, Need(queue[0])) {
          sendBuf := Serialize(sendBuf, queue[0]);
          queue := queue[1..];
          torn := true;
          return;
        }
        SerializeKeeps(wire, sendBuf, queue, queued);
        TearsStep(sendBuf, queue);
        sendBuf := Serialize(sendBuf, queue[0]);
        queue := queue[1..];
      }
    }

    /** `handle_output`; terminates because every round shortens the queue or empties the buffer.
        It comes back with bytes left only when the kernel did not take all it was offered. */
    method HandleOutput() returns (ret: int)
      requires Valid() && !dead && !torn
      modifies this`sendBuf, this`wire, this`queue, this`notify, this`dead, this`torn, this`shorts, this`failures
      ensures Valid() && (!torn ==> (ret < 0 <==> dead))
      ensures torn <==> exists i :: 0 <= i < |old(queue)| && TearsAt(old(sendBuf), old(queue), i)
      ensures dead <==> failures > old(failures)
      ensures !dead && !torn ==> (notify <==> Len(sendBuf) > 0) && old(wire) <= wire
      ensures !dead && !torn ==> if Len(sendBuf) > 0 then shorts > old(shorts) else queue == []
    {
      hide Conserves, Tears, TearsAt;
      Bounds(wire, sendBuf, queue, queued);
      TearsExactly(sendBuf, queue);
      while Len(sendBuf) > 0 || queue != []
        invariant !dead && !torn && Conserves(wire, sendBuf, queue, queued) && Sound(sendBuf)
        invariant MsgsOk(queue) && Tears(sendBuf, queue) == Tears(old(sendBuf), old(queue))
        invariant failures == old(failures) && shorts == old(shorts) && old(wire) <= wire
        invariant Len(sendBuf) > 0 || queue != [] ==> notify
        decreases |queue|, Len(sendBuf)
      {
        TearsExactly(sendBuf, queue);
        Fill();
        if torn {
          return 0;
        }
        Bounds(wire, sendBuf, queue, queued);
        var rtn := WriteTo();
        if rtn < 0 {
          dead := true;
          return -1;
        }
        Bounds(wire, sendBuf, queue, queued);
        if Len(sendBuf) > 0 {
          return 0;
        }
        WholeNeverTears(sendBuf, queue);
      }
      WholeNeverTears(sendBuf, queue);
      notify := false;
      ret := 0;
    }

    /** The loop of `handle_input`. */
    method DrainFrames() returns (e: Exit)
      requires Sound(recvBuf)
      modifies this`recvBuf, this`handled
      ensures var r := Drain(old(recvBuf), old(Proc()));
        recvBuf == r.0 && handled == old(handled) + r.1 && e == r.2
    {
      hide HeaderValid, LengthField, CmdField, Sound, Drain, FirstMsg;
      ghost var whole := Drain(recvBuf, Proc());
      SoundBounds(recvBuf);
      while Len(recvBuf) >= HEADER
        invariant Sound(recvBuf) && recvBuf.rpos <= recvBuf.wpos <= |recvBuf.buf|
        invariant var r := Drain(recvBuf, Proc());
          r.0 == whole.0 && r.2 == whole.2 && handled + r.1 == old(handled) + whole.1
        decreases Len(recvBuf)
      {
        var s := Unread(recvBuf);
        DrainStep(recvBuf, Proc());
        if !HeaderValid(s) {
          return Drop;
        }
        var n := HEADER + LengthField(s);
        if n > Len(recvBuf) {
          return Incomplete;
        }
        var m := FirstMsg(s);
        var verdict := Proc().Judge(m);
        if verdict == Unparsed {
          return Drop;
        }
        ghost var r := Drain(recvBuf, Proc());
        handled := handled + [m];
        if verdict == Refused {
          return Drop;
        }
        ConsumeKeeps(recvBuf, n);
        recvBuf := Consume(recvBuf, n);
        ghost var r' := Drain(recvBuf, Proc());
        assert old(handled) + whole.1 == (handled[..|handled| - 1] + [m]) + r'.1;
        SoundBounds(recvBuf);
      }
      DrainStep(recvBuf, Proc());
      e := Short;
    }

    static lemma SoundBounds(b: XBuf)
      requires Sound(b)
      ensures b.rpos <= b.wpos <= |b.buf|
    {
    }

    /** `handle_input`.  The new receive buffer is in order exactly as `InputStep` says. */
    method ReadInput(r: ReadResult) returns (ret: int)
      requires Valid() && InOrder(recvBuf) && (r.Bytes? ==> 0 < |r.d| <= Capacity(recvBuf))
      modifies this`recvBuf, this`handled, this`dead
      ensures Valid()
      ensures r.Gone? ==> ret == -1 && dead && recvBuf == old(recvBuf) && handled == old(handled)
      ensures !r.Gone? ==>
        var step := HandleInput(old(recvBuf), if r.Bytes? then r.d else [], old(Proc()));
        && handled == old(handled) + step.msgs && recvBuf == step.b
        && ret == (if step.ok then 0 else -1) && dead == (old(dead) || !step.ok)
    {
      hide Drain, Finish, Append;
      if r.Gone? {
        dead := true;
        return -1;
      }
      var d := if r.Bytes? then r.d else [];
      AppendKeeps(recvBuf, d);
      recvBuf := Append(recvBuf, d);
      if Len(recvBuf) < HEADER {
        return 0;
      }
      var e := DrainFrames();
      recvBuf := Finish(recvBuf, e);
      if e.Drop? {
        dead := true;
        return -1;
      }
      ret := 0;
    }
  }
}
