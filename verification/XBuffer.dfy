/**
  `xbuffer`: a growable byte buffer with a read and a write position.  Its `tidy` moves the
  unread bytes to the front and moves the write position, but leaves the read position where
  it was, and its `ensure_capacity` computes the new size in 32 bits; everything below says what
  that does.
 */
module XBuffer {
  import opened Basics
  import opened Bytes

  /** `bad` records that a length was computed as a negative number, which the 32-bit fields
      turn into one near 2^32: from there on memory outside the buffer is read or moved. */
  datatype XBuf = XBuf(buf: seq<byte>, wpos: nat, rpos: nat, bad: bool)

  /** The state every harmless operation keeps: no unread byte means no offset. */
  predicate Sound(b: XBuf) {
    !b.bad && b.rpos <= b.wpos <= |b.buf| < TWO32 && (b.rpos == b.wpos ==> b.wpos == 0)
  }

  function Len(b: XBuf): nat
    requires b.rpos <= b.wpos
  {
    b.wpos - b.rpos
  }

  function Capacity(b: XBuf): nat
    requires b.wpos <= |b.buf|
  {
    |b.buf| - b.wpos
  }

  /** The unread bytes. */
  function Unread(b: XBuf): (s: seq<byte>)
    requires b.rpos <= b.wpos <= |b.buf|
    ensures |s| == Len(b)
  {
    b.buf[b.rpos..b.wpos]
  }

  function Tidy(b: XBuf): XBuf
    requires b.bad || b.wpos <= |b.buf|
  {
    if b.bad || b.rpos == 0 then b
    else if b.rpos > b.wpos then b.(bad := true)
    else b.(buf := b.buf[b.rpos..b.wpos] + b.buf[b.wpos - b.rpos..], wpos := b.wpos - b.rpos)
  }

  function Zeros(n: nat): seq<byte> { seq(n, _ => 0) }

  /** The second test of `ensure_capacity`, where it tidies instead of growing. */
  predicate TidiesFor(b: XBuf, c: nat)
    requires b.wpos <= |b.buf|
  {
    Capacity(b) < c && b.rpos != 0 && (Capacity(b) + b.rpos) % TWO32 >= c
  }

  /** The size after growing would not fit 32 bits. */
  predicate Wraps(b: XBuf, c: nat)
    requires b.wpos <= |b.buf|
  {
    Capacity(b) < c && b.wpos + c >= TWO32
  }

  predicate Harms(b: XBuf, c: nat)
    requires b.wpos <= |b.buf|
  {
    TidiesFor(b, c) || Wraps(b, c)
  }

  /** `realloc`, which cuts the block when it gets smaller. */
  function Resized(buf: seq<byte>, size: nat): (r: seq<byte>)
    ensures |r| == size
  {
    if size <= |buf| then buf[..size] else buf + Zeros(size - |buf|)
  }

  /** A size below the write position makes the capacity negative. */
  function EnsureCapacity(b: XBuf, c: nat): XBuf
    requires b.wpos <= |b.buf|
  {
    if Capacity(b) >= c then b
    else if TidiesFor(b, c) then Tidy(b)
    else
      var size := (b.wpos + c) % TWO32;
      b.(buf := Resized(b.buf, size), bad := b.bad || size < b.wpos)
  }

  function Consume(b: XBuf, n: nat): XBuf {
    if b.rpos + n >= b.wpos then b.(rpos := 0, wpos := 0) else b.(rpos := b.rpos + n)
  }

  /** Bytes written at `writepos` and accounted for by `gotbytes`. */
  function Append(b: XBuf, d: seq<byte>): XBuf
    requires b.wpos + |d| <= |b.buf|
  {
    b.(buf := b.buf[..b.wpos] + d + b.buf[b.wpos + |d|..], wpos := b.wpos + |d|)
  }

  // ---------------------------------------------------------------- laws

  /** `tidy` keeps the unread bytes exactly when nothing has been consumed before them. */
  lemma TidyKeeps(b: XBuf)
    requires Sound(b)
    ensures var t := Tidy(b);
      t.rpos <= t.wpos <= |t.buf| && Unread(t) == Unread(b) && Sound(t) <==> b.rpos == 0
  {
  }

  /** After a `tidy` that moved something, as many unread bytes are gone as had been consumed,
      or the length has gone negative. */
  lemma TidyLoses(b: XBuf)
    requires Sound(b) && b.rpos > 0
    ensures var t := Tidy(b);
      && t.rpos == b.rpos && t.wpos == Len(b) && t.wpos <= |t.buf| == |b.buf|
      && t.buf[..t.wpos] == Unread(b)
      && (t.rpos <= t.wpos ==> Unread(t) == Unread(b)[b.rpos..])
  {
  }

  lemma ConsumeKeeps(b: XBuf, n: nat)
    requires Sound(b) && n <= Len(b)
    ensures Sound(Consume(b, n)) && Unread(Consume(b, n)) == Unread(b)[n..]
    ensures Consume(b, n).rpos == if n == Len(b) then 0 else b.rpos + n
  {
  }

  lemma AppendKeeps(b: XBuf, d: seq<byte>)
    requires Sound(b) && |d| <= Capacity(b)
    ensures Sound(Append(b, d)) && Unread(Append(b, d)) == Unread(b) + d
    ensures Append(b, d).rpos == b.rpos
  {
  }

  /** `ensure_capacity` gives the room asked for and keeps the unread bytes exactly unless it
      tidies or the new size wraps, and then it leaves a block smaller than its contents. */
  lemma EnsureCapacityKeeps(b: XBuf, c: nat)
    requires Sound(b) && c < TWO32
    ensures var e := EnsureCapacity(b, c);
      && (Sound(e) && e.rpos == b.rpos && Unread(e) == Unread(b) <==> !Harms(b, c))
      && (!Harms(b, c) ==> e.wpos == b.wpos && Capacity(e) == if Capacity(b) >= c then Capacity(b) else c)
      && (TidiesFor(b, c) ==> !e.bad && e.wpos <= |e.buf| && Capacity(e) >= c)
      && (!TidiesFor(b, c) && Wraps(b, c) ==> e.bad && |e.buf| < e.wpos == b.wpos)
  {
    hide EnsureCapacity, TidiesFor, Unread;
    if Capacity(b) >= c {
      EnoughRoom(b, c);
    } else if TidiesFor(b, c) {
      TidyMakesRoom(b, c);
    } else {
      Grown(b, c);
      if !Wraps(b, c) {
        GrowKeeps(b, b.wpos + c);
      }
    }
  }

  lemma EnoughRoom(b: XBuf, c: nat)
    requires Sound(b) && Capacity(b) >= c
    ensures EnsureCapacity(b, c) == b && !Harms(b, c)
  {
  }

  lemma TidyMakesRoom(b: XBuf, c: nat)
    requires Sound(b) && TidiesFor(b, c)
    ensures var e := EnsureCapacity(b, c);
      && !e.bad && e.wpos <= |e.buf| && Capacity(e) >= c
      && (e.rpos <= e.wpos ==> Unread(e) != Unread(b))
  {
    TidyLoses(b);
  }

  lemma Grown(b: XBuf, c: nat)
    requires Sound(b) && c < TWO32 && Capacity(b) < c && !TidiesFor(b, c)
    ensures var size := if Wraps(b, c) then b.wpos + c - TWO32 else b.wpos + c;
      EnsureCapacity(b, c) == b.(buf := Resized(b.buf, size), bad := Wraps(b, c))
  {
    hide TidiesFor;
  }

  lemma GrowKeeps(b: XBuf, size: nat)
    requires Sound(b) && |b.buf| <= size < TWO32
    ensures var e := b.(buf := Resized(b.buf, size)); Sound(e) && Unread(e) == Unread(b)
  {
    var e := b.(buf := Resized(b.buf, size));
    assert forall i :: 0 <= i < |b.buf| ==> e.buf[i] == b.buf[i];
  }
}

/** Frames of the administration protocol: a 12-byte header, then the message. */
module AdminFrame {
  import opened Basics
  import opened Bytes
  import opened LittleEndian

  const HEADER := 12                  // sizeof(ProtocolHeader)
  const MAGIC := 0x5454_4341
  const AC_CMD_END := 18
  const AC_HEART_BEAT := 8            // the first command CreateMessage knows

  datatype Msg = Msg(cmd: nat, body: seq<byte>)

  predicate MsgOk(m: Msg) { m.cmd < TWO32 && |m.body| < TWO31 }

  /** The bytes `SerializeToSendBuf` adds. */
  function Frame(m: Msg): (s: seq<byte>)
    requires MsgOk(m)
    ensures |s| == HEADER + |m.body|
  {
    LE32(MAGIC) + LE32(|m.body|) + LE32(m.cmd) + m.body
  }

  function Frames(ms: seq<Msg>): seq<byte>
    requires forall i :: 0 <= i < |ms| ==> MsgOk(ms[i])
  {
    if ms == [] then [] else Frame(ms[0]) + Frames(ms[1..])
  }

  function LengthField(s: seq<byte>): nat
    requires |s| >= HEADER
  {
    FromLE32(s, 4)
  }

  function CmdField(s: seq<byte>): nat
    requires |s| >= HEADER
  {
    FromLE32(s, 8)
  }

  /** `IsProtocolHeaderValid` */
  predicate HeaderValid(s: seq<byte>)
    requires |s| >= HEADER
  {
    FromLE32(s, 0) == MAGIC && 0 < CmdField(s) < AC_CMD_END
  }

  /** A message of a command that `CreateMessage` knows. */
  predicate Supported(m: Msg) {
    MsgOk(m) && AC_HEART_BEAT <= m.cmd < AC_CMD_END
  }

  /** The header fields of a frame, whatever follows it. */
  lemma FrameFields(m: Msg, rest: seq<byte>)
    requires MsgOk(m)
    ensures var s := Frame(m) + rest;
      && FromLE32(s, 0) == MAGIC && LengthField(s) == |m.body| && CmdField(s) == m.cmd
      && s[HEADER..HEADER + |m.body|] == m.body && s[HEADER + |m.body|..] == rest
  {
    hide FromLE32, LE32, Frame;
    var a, b, c := LE32(MAGIC), LE32(|m.body|), LE32(m.cmd);
    LE32RoundTrip(MAGIC, [], b + c + m.body + rest);
    LE32RoundTrip(|m.body|, a, c + m.body + rest);
    LE32RoundTrip(m.cmd, a + b, m.body + rest);
    FrameSplits(m, rest);
    FrameBody(m, rest);
  }

  /** A frame cut before each header field. */
  lemma FrameSplits(m: Msg, rest: seq<byte>)
    requires MsgOk(m)
    ensures var s, a, b, c := Frame(m) + rest, LE32(MAGIC), LE32(|m.body|), LE32(m.cmd);
      && s == [] + a + (b + c + m.body + rest)
      && s == a + b + (c + m.body + rest)
      && s == (a + b) + c + (m.body + rest)
  {
    hide LE32;
  }

  lemma FrameBody(m: Msg, rest: seq<byte>)
    requires MsgOk(m)
    ensures var s := Frame(m) + rest;
      s[HEADER..HEADER + |m.body|] == m.body && s[HEADER + |m.body|..] == rest
  {
    hide LE32;
  }

  /** A frame byte by byte: the magic number, the length of the body, the command, the body. */
  lemma FrameLayout(m: Msg)
    requires MsgOk(m)
    ensures var s := Frame(m);
      && |s| == 12 + |m.body| && s[..4] == [0x41, 0x43, 0x54, 0x54] && s[12..] == m.body
      && Word(s[4], s[5], s[6], s[7]) == |m.body| && Word(s[8], s[9], s[10], s[11]) == m.cmd
  {
    hide LE32, FromLE32;
    var s := Frame(m);
    FrameFields(m, []);
    assert s + [] == s && s[HEADER..HEADER + |m.body|] == s[12..];
    WordAt(s, 4);
    WordAt(s, 8);
    WordIs(0x41, 0x43, 0x54, 0x54);
    assert s[..4] == LE32(MAGIC);
  }

  /** The headers that are accepted, byte by byte. */
  lemma HeaderValidBytes(s: seq<byte>)
    requires |s| >= 12
    ensures HeaderValid(s) <==>
      s[..4] == [0x41, 0x43, 0x54, 0x54] && 0 < Word(s[8], s[9], s[10], s[11]) < 18
  {
    hide FromLE32;
    WordAt(s, 0);
    WordAt(s, 8);
    WordIs(s[0], s[1], s[2], s[3]);
    WordIs(0x41, 0x43, 0x54, 0x54);
    assert s[..4] == [s[0], s[1], s[2], s[3]];
  }

  lemma {:induction false} FramesAppend(ms: seq<Msg>, ns: seq<Msg>)
    requires forall i :: 0 <= i < |ms| ==> MsgOk(ms[i])
    requires forall i :: 0 <= i < |ns| ==> MsgOk(ns[i])
    ensures Frames(ms + ns) == Frames(ms) + Frames(ns)
  {
    if ms == [] {
      assert ms + ns == ns;
    } else {
      assert (ms + ns)[1..] == ms[1..] + ns;
      FramesAppend(ms[1..], ns);
    }
  }
}
