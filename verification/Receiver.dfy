/** Packets as `CAGReceiver` cuts them out of a byte stream. */
module PacketStream {
  import opened Basics
  import opened Bytes
  import opened LittleEndian

  const HEADER := 36               // sizeof(CPacketHeader)
  const MAXPACKETSIZE := 0x400_0000

  /** Section `i`'s length field, little endian. */
  function SectionLen(h: seq<byte>, i: nat): nat
    requires |h| >= HEADER && i < 8
  {
    FromLE32(h, 4 + 4 * i)
  }

  function SumSections(h: seq<byte>, n: nat): nat
    requires |h| >= HEADER && n <= 8
  {
    if n == 0 then 0 else SumSections(h, n - 1) + SectionLen(h, n - 1)
  }

  /** `GetBodyLen`: the eight section lengths summed in 32 bits. */
  function BodyLen(h: seq<byte>): (n: nat)
    requires |h| >= HEADER
    ensures n < TWO32
  {
    SumSections(h, 8) % TWO32
  }

  function PacketLen(h: seq<byte>): nat
    requires |h| >= HEADER
  {
    HEADER + BodyLen(h)
  }

  lemma SumWraps(a: nat, b: nat)
    ensures (a % TWO32 + b) % TWO32 == (a + b) % TWO32
  {
  }

  lemma {:induction false} SumSectionsOfPrefix(h: seq<byte>, s: seq<byte>, n: nat)
    requires |h| >= HEADER && h <= s && n <= 8
    ensures SumSections(h, n) == SumSections(s, n)
  {
    if n > 0 {
      SumSectionsOfPrefix(h, s, n - 1);
    }
  }

  function Sum(ns: seq<nat>): nat {
    if ns == [] then 0 else Sum(ns[..|ns| - 1]) + ns[|ns| - 1]
  }

  /** A packet: four head bytes (version, scts, flags, cmd), the lengths of eight sections, and
      the body. */
  datatype Parts = Parts(head: seq<byte>, lens: seq<nat>, body: seq<byte>)

  predicate PartsOk(x: Parts) {
    |x.head| == 4 && |x.lens| == 8 && forall i :: 0 <= i < |x.lens| ==> x.lens[i] < 0x1_0000_0000
  }

  function Assemble(x: Parts): seq<byte>
    requires PartsOk(x)
  {
    x.head + Words(x.lens) + x.body
  }

  lemma {:induction false} SumOfParts(x: Parts, n: nat)
    requires PartsOk(x) && n <= 8
    ensures SumSections(Assemble(x), n) == Sum(x.lens[..n])
  {
    hide FromLE32, Words;
    if n > 0 {
      SumOfParts(x, n - 1);
      WordsAt(x.head, x.lens, x.body, n - 1);
      assert x.lens[..n][..n - 1] == x.lens[..n - 1];
    }
  }

  /** The length of the body is the sum of the eight lengths in 32 bits, whatever the head. */
  lemma BodyLenOfParts(x: Parts)
    requires PartsOk(x)
    ensures |Assemble(x)| == 36 + |x.body| && BodyLen(Assemble(x)) == Sum(x.lens) % 0x1_0000_0000
  {
    SumOfParts(x, 8);
    assert x.lens[..8] == x.lens;
  }

  /** A packet whose lengths describe its body is received unless the body is empty or larger
      than 64 MB. */
  lemma PartsArePacket(x: Parts)
    requires PartsOk(x) && Sum(x.lens) == |x.body| < 0x1_0000_0000
    ensures IsPacket(Assemble(x)) <==> 0 < |x.body| <= 67108864
  {
    hide Assemble, SumSections;
    BodyLenOfParts(x);
  }

  /** A whole packet with a non-empty body. */
  predicate IsPacket(p: seq<byte>) {
    |p| >= HEADER && 0 < BodyLen(p) <= MAXPACKETSIZE && |p| == PacketLen(p)
  }

  /** A stream starts with a packet. */
  predicate StartsWithPacket(s: seq<byte>) {
    |s| >= HEADER && 0 < BodyLen(s) <= MAXPACKETSIZE && |s| >= PacketLen(s)
  }

  /** The packets of a stream: the reference the receiver is measured against. */
  function Packets(s: seq<byte>): seq<seq<byte>>
    decreases |s|
  {
    if StartsWithPacket(s) then [s[..PacketLen(s)]] + Packets(s[PacketLen(s)..]) else []
  }

  lemma {:induction false} FlattenAppend(ps: seq<seq<byte>>, p: seq<byte>)
    ensures Flatten(ps + [p]) == Flatten(ps) + p
  {
    if ps == [] {
      assert ps + [p] == [p] && [p][1..] == [];
    } else {
      assert (ps + [p])[1..] == ps[1..] + [p];
      FlattenAppend(ps[1..], p);
    }
  }

  lemma PacketThenMore(p: seq<byte>, rest: seq<byte>)
    requires IsPacket(p)
    ensures StartsWithPacket(p + rest) && PacketLen(p + rest) == |p|
  {
    SumSectionsOfPrefix(p, p + rest, 8);
  }

  lemma FirstPacket(s: seq<byte>)
    requires StartsWithPacket(s)
    ensures IsPacket(s[..PacketLen(s)])
  {
    SumSectionsOfPrefix(s[..PacketLen(s)], s, 8);
  }

  /** Whole packets followed by anything: the packets come first, unchanged and in order. */
  lemma {:induction false} PacketsOfFlatten(ps: seq<seq<byte>>, rest: seq<byte>)
    requires forall i :: 0 <= i < |ps| ==> IsPacket(ps[i])
    ensures Packets(Flatten(ps) + rest) == ps + Packets(rest)
  {
    hide StartsWithPacket, PacketLen, IsPacket;
    if ps == [] {
      assert Flatten(ps) + rest == rest;
    } else {
      var p, tail := ps[0], Flatten(ps[1..]) + rest;
      PacketsOfFlatten(ps[1..], rest);
      PacketThenMore(p, tail);
      assert Flatten(ps) + rest == p + tail;
      assert (p + tail)[..|p|] == p && (p + tail)[|p|..] == tail;
      assert ps == [p] + ps[1..];
    }
  }

  // ---------------------------------------------------------------- the receiver's invariant

  /** The bytes held for the packet being received, header or body. */
  predicate HeldOk(waitData: bool, held: seq<byte>, size: nat) {
    if waitData then
      |held| >= HEADER && BodyLen(held) <= MAXPACKETSIZE && size == PacketLen(held) && |held| <= size
    else
      |held| < HEADER
  }

  /** `delivered` packets followed by `held` bytes are the bytes consumed. */
  ghost predicate ReceiverOk(consumed: seq<byte>, delivered: seq<seq<byte>>, waitData: bool, held: seq<byte>,
                             size: nat) {
    && HeldOk(waitData, held, size)
    && (forall i :: 0 <= i < |delivered| ==> IsPacket(delivered[i]))
    && consumed == Flatten(delivered) + held
  }

  lemma DataArrives(held: seq<byte>, size: nat, d: seq<byte>)
    requires HeldOk(true, held, size) && |held| + |d| <= size && d != []
    ensures HeldOk(true, held + d, size)
    ensures |held + d| == size ==> IsPacket(held + d)
  {
    SumSectionsOfPrefix(held, held + d, 8);
  }

  /** Bytes taken from the socket extend what is held. */
  lemma ReceiverTakes(consumed: seq<byte>, delivered: seq<seq<byte>>, waitData: bool, held: seq<byte>, size: nat,
                      d: seq<byte>)
    requires ReceiverOk(consumed, delivered, waitData, held, size) && d != []
    requires |held| + |d| <= if waitData then size else HEADER
    ensures waitData ==> ReceiverOk(consumed + d, delivered, true, held + d, size)
    ensures !waitData && |held + d| < HEADER ==> ReceiverOk(consumed + d, delivered, false, held + d, size)
    ensures !waitData && |held + d| == HEADER && BodyLen(held + d) <= MAXPACKETSIZE ==>
              ReceiverOk(consumed + d, delivered, true, held + d, BodyLen(held + d) + HEADER)
  {
    hide BodyLen, IsPacket;
    assert consumed + d == Flatten(delivered) + (held + d);
    if waitData {
      DataArrives(held, size, d);
    }
  }

  lemma ReceiverHolds(consumed: seq<byte>, delivered: seq<seq<byte>>, waitData: bool, held: seq<byte>, size: nat)
    requires ReceiverOk(consumed, delivered, waitData, held, size)
    ensures if waitData then HEADER <= |held| <= size else |held| < HEADER
  {
  }

  /** A complete packet joins the delivered ones. */
  lemma ReceiverDelivers(consumed: seq<byte>, delivered: seq<seq<byte>>, held: seq<byte>, size: nat)
    requires ReceiverOk(consumed, delivered, true, held, size) && |held| == size > HEADER
    ensures IsPacket(held) && ReceiverOk(consumed, delivered + [held], false, [], 0)
  {
    hide BodyLen;
    FlattenAppend(delivered, held);
    assert Flatten(delivered + [held]) + [] == Flatten(delivered + [held]);
  }

  /** The bytes consumed decide which packets have been delivered, so chunking does not. */
  lemma DeliveredAreThePackets(consumed: seq<byte>, delivered: seq<seq<byte>>, waitData: bool, held: seq<byte>,
                               size: nat)
    requires ReceiverOk(consumed, delivered, waitData, held, size)
    requires waitData ==> |held| < size
    ensures delivered == Packets(consumed)
  {
    PacketsOfFlatten(delivered, held);
    assert Packets(held) == [];
    assert delivered + [] == delivered;
  }
}

/** `CAGReceiver` over a socket that hands out its stream in pieces of any size. */
module Receiver {
  import opened Basics
  import opened Bytes
  import opened PacketStream

  datatype Recvd = Data(bytes: seq<byte>) | Closed | WouldBlock | Broken

  /** The kernel's side of a connection. */
  class Socket {
    var incoming: seq<byte>        // what the peer sent and nobody received yet
    ghost var over: bool           // the peer closed or the connection broke
    ghost var shorts: nat          // how often it gave less than it was asked for

    constructor (stream: seq<byte>)
      ensures incoming == stream && !over && shorts == 0
    {
      incoming, over, shorts := stream, false, 0;
    }

    /** `recv`: some of the stream, at most `n` bytes, or nothing for one of three reasons.
        A request for no bytes returns 0, which callers cannot tell from a closed peer. */
    method Recv(n: nat) returns (r: Recvd)
      modifies this
      ensures match r
        case Data(d) => 0 < |d| <= n && old(incoming) == d + incoming
        case _ => incoming == old(incoming)
      ensures n == 0 ==> r == Closed
      ensures over == (old(over) || (n > 0 && (r.Closed? || r.Broken?)))
      ensures shorts == old(shorts) + if r == WouldBlock || (r.Data? && |r.bytes| < n) then 1 else 0
    {
      if n == 0 {
        return Closed;
      }
      if * {
        var k :| 0 <= k <= n && k <= |incoming|;
        if k > 0 {
          r := Data(incoming[..k]);
          incoming := incoming[k..];
          shorts := shorts + if k < n then 1 else 0;
          return;
        }
      }
      if * { r := Closed; } else if * { r := WouldBlock; } else { r := Broken; }
      over := over || !r.WouldBlock?;
      shorts := shorts + if r.WouldBlock? then 1 else 0;
    }
  }

  class Receiver {
    const socket: Socket
    var waitData: bool             // m_state == RS_WAITDATA
    const header: array<byte>      // m_header
    var buf: array<byte>           // m_buf
    var bufSize: nat
    var offset: nat

    ghost var consumed: seq<byte>          // every byte taken from the socket
    ghost var delivered: seq<seq<byte>>    // every packet handed out by GetPacket

    ghost function Held(): seq<byte>
      requires offset <= (if waitData then buf.Length else header.Length)
      reads this, header, buf
    {
      if waitData then buf[..offset] else header[..offset]
    }

    ghost predicate Valid()
      reads this, header, buf
    {
      && header.Length == HEADER
      && header != buf
      && (waitData ==> buf.Length == bufSize)
      && offset <= (if waitData then buf.Length else header.Length)
      && ReceiverOk(consumed, delivered, waitData, Held(), bufSize)
    }

    /** A whole packet sits in the buffer and waits for GetPacket. */
    ghost predicate Ready()
      reads this
    {
      waitData && offset == bufSize
    }

    constructor (s: Socket)
      ensures Valid() && !Ready() && socket == s && consumed == [] && delivered == [] && fresh(header) && fresh(buf)
    {
      socket, waitData, bufSize, offset := s, false, 0, 0;
      header := new byte[HEADER](_ => 0);
      buf := new byte[0];
      consumed, delivered := [], [];
    }

    /** `GetBodyLen` */
    method GetBodyLen() returns (len: nat)
      requires header.Length == HEADER
      ensures len == BodyLen(header[..])
    {
      hide SectionLen;
      ghost var h := header[..];
      len := 0;
      for i := 0 to 8
        invariant len == SumSections(h, i) % TWO32
      {
        SumWraps(SumSections(h, i), SectionLen(h, i));
        len := (len + SectionLen(header[..], i)) % TWO32;
      }
    }

    /** `memcpy` into a buffer */
    static method Store(a: array<byte>, at: nat, d: seq<byte>)
      requires at + |d| <= a.Length
      modifies a
      ensures a[..at + |d|] == old(a[..at]) + d
    {
      forall i | 0 <= i < |d| {
        a[at + i] := d[i];
      }
    }

    /** The end of `GetHeader`: check the length and move the header into the packet's buffer. */
    method StartBody() returns (rtn: int)
      requires header.Length == HEADER && !waitData
      modifies this`bufSize, this`buf, this`waitData
      ensures rtn == if BodyLen(header[..]) > MAXPACKETSIZE then -1 else 1
      ensures rtn == 1 ==> waitData && bufSize == BodyLen(header[..]) + HEADER
      ensures rtn == 1 ==> fresh(buf) && buf.Length == bufSize && buf[..HEADER] == header[..]
    {
      hide BodyLen;
      var len := GetBodyLen();
      if len > MAXPACKETSIZE {
        return -1;
      }
      bufSize := len + HEADER;
      buf := new byte[bufSize](_ => 0);
      Store(buf, 0, header[..]);
      assert buf[..HEADER] == header[..];
      waitData := true;
      rtn := 1;
    }

    /** `GetHeader`: 1 once the header is complete and valid, 0 when it is not complete yet. */
    method GetHeader() returns (rtn: int)
      requires Valid() && !waitData
      modifies this, header, socket
      ensures rtn >= 0 ==> Valid() && consumed + socket.incoming == old(consumed + socket.incoming)
      ensures rtn >= 0 ==> old(consumed) <= consumed && delivered == old(delivered)
      ensures rtn >= 0 ==> waitData == (rtn == 1)
      ensures rtn >= 0 ==> if rtn == 1 then offset == HEADER && fresh(buf) else buf == old(buf)
      ensures rtn == -1 || rtn == 0 || rtn == 1
      ensures header.Length == HEADER && (rtn == 1 ==> bufSize == HEADER + BodyLen(header[..]))
      ensures rtn == -1 ==> socket.over || BodyLen(header[..]) > MAXPACKETSIZE
      ensures rtn >= 0 ==> socket.shorts == old(socket.shorts) + (1 - rtn)
    {
      hide ReceiverOk, BodyLen;
      ReceiverHolds(consumed, delivered, false, Held(), bufSize);
      var r := socket.Recv(HEADER - offset);
      if r.WouldBlock? {
        return 0;
      }
      if !r.Data? {
        return -1;
      }
      ghost var held := Held();
      ReceiverTakes(consumed, delivered, false, held, bufSize, r.bytes);
      Store(header, offset, r.bytes);
      offset := offset + |r.bytes|;
      consumed := consumed + r.bytes;
      assert header[..offset] == held + r.bytes;
      if offset == HEADER {
        assert header[..] == held + r.bytes;
        rtn := StartBody();
        return;
      }
      rtn := 0;
    }

    /** `GetData`: 1 once the whole packet is in the buffer. */
    method GetData() returns (rtn: int)
      requires Valid() && waitData
      modifies this, buf, socket
      ensures rtn >= 0 ==> Valid() && consumed + socket.incoming == old(consumed + socket.incoming)
      ensures rtn >= 0 ==> old(consumed) <= consumed && delivered == old(delivered)
      ensures rtn >= 0 ==> waitData && bufSize == old(bufSize) && buf == old(buf) && (rtn == 1 <==> Ready())
      ensures old(offset) == bufSize ==> rtn == -1
      ensures rtn == -1 ==> socket.over || old(offset) == old(bufSize)
      ensures rtn >= 0 ==> socket.shorts == old(socket.shorts) + (1 - rtn)
      ensures rtn == -1 || rtn == 0 || rtn == 1
    {
      hide ReceiverOk, BodyLen;
      ReceiverHolds(consumed, delivered, true, Held(), bufSize);
      var r := socket.Recv(bufSize - offset);
      if r.WouldBlock? {
        return 0;
      }
      if !r.Data? {
        return -1;
      }
      ghost var held := Held();
      ReceiverTakes(consumed, delivered, true, held, bufSize, r.bytes);
      Store(buf, offset, r.bytes);
      offset := offset + |r.bytes|;
      consumed := consumed + r.bytes;
      assert buf[..offset] == held + r.bytes;
      rtn := if offset == bufSize then 1 else 0;
    }

    /** `Recv`: a header with an empty body ends the connection, because the zero-length
        `recv` that follows it reads as a closed peer. */
    method Recv() returns (rtn: int)
      requires Valid() && !Ready()
      modifies this, header, buf, socket
      ensures rtn >= 0 ==> Valid() && consumed + socket.incoming == old(consumed + socket.incoming)
      ensures rtn >= 0 ==> old(consumed) <= consumed && delivered == old(delivered) && (rtn == 1 <==> Ready())
      ensures rtn >= 0 && !old(waitData) && waitData ==> bufSize > HEADER
      ensures rtn >= 0 && old(waitData) ==> waitData && bufSize == old(bufSize)
      ensures rtn >= 0 ==> buf == old(buf) || fresh(buf)
      ensures rtn == -1 || rtn == 0 || rtn == 1
      ensures header.Length == HEADER
      ensures rtn >= 0 ==> socket.shorts == old(socket.shorts) + (1 - rtn)
      ensures rtn == -1 ==> socket.over || (!old(waitData) && !(0 < BodyLen(header[..]) <= MAXPACKETSIZE))
    {
      hide ReceiverOk;
      if !waitData {
        rtn := GetHeader();
        if rtn <= 0 {
          return;
        }
      }
      rtn := GetData();
    }

    /** `GetPacket` */
    method GetPacket() returns (packet: array<byte>, len: nat)
      requires Valid() && Ready() && bufSize > HEADER
      modifies this
      ensures Valid() && !Ready() && fresh(buf)
      ensures packet == old(buf) && len == packet.Length && IsPacket(packet[..])
      ensures delivered == old(delivered) + [packet[..]] && consumed == old(consumed)
    {
      hide IsPacket;
      packet, len := buf, bufSize;
      assert buf[..] == buf[..offset];
      ReceiverDelivers(consumed, delivered, buf[..], bufSize);
      delivered := delivered + [buf[..]];
      bufSize, offset, waitData := 0, 0, false;
      buf := new byte[0];
    }
  }
}

/** Sender and receiver together: the packets given to one come out of the other. */
module Transport {
  import opened Basics
  import opened Bytes
  import opened LittleEndian
  import opened SendQueue
  import opened PacketStream

  function PacketBytes(ps: seq<Packet>): (r: seq<seq<byte>>)
    ensures |r| == |ps| && forall i :: 0 <= i < |ps| ==> r[i] == ps[i].bytes
  {
    if ps == [] then [] else [ps[0].bytes] + PacketBytes(ps[1..])
  }

  lemma {:induction false} ConcatIsFlatten(ps: seq<Packet>)
    ensures Concat(ps) == Flatten(PacketBytes(ps))
  {
    if ps != [] {
      ConcatIsFlatten(ps[1..]);
      assert PacketBytes(ps)[1..] == PacketBytes(ps[1..]);
    }
  }

  /** Cutting a prefix of a stream into packets gives the first packets of the stream. */
  lemma {:induction false} PacketsOfPrefix(s: seq<byte>, rest: seq<byte>)
    ensures Packets(s) <= Packets(s + rest)
    decreases |s|
  {
    hide BodyLen, IsPacket;
    if StartsWithPacket(s) {
      var n := PacketLen(s);
      FirstPacket(s);
      PacketThenMore(s[..n], s[n..] + rest);
      assert s[..n] + (s[n..] + rest) == s + rest;
      assert (s + rest)[..n] == s[..n] && (s + rest)[n..] == s[n..] + rest;
      PacketsOfPrefix(s[n..], rest);
    }
  }

  /** For any interleaving of sends and receives: whatever part of the stream the receiver has
      consumed, it has delivered the first of the sender's packets, unchanged and in order.  Once
      everything sent has been consumed they are all there, the last one perhaps still waiting
      for GetPacket. */
  lemma EndToEnd(added: seq<Packet>, q: seq<IoVec>, wire: seq<byte>, freed: seq<Packet>, leftLen: int,
                 consumed: seq<byte>, delivered: seq<seq<byte>>, waitData: bool, held: seq<byte>, size: nat)
    requires SenderOk(added, q, wire, freed, leftLen)
    requires ReceiverOk(consumed, delivered, waitData, held, size)
    requires consumed <= wire
    requires forall i :: 0 <= i < |added| ==> IsPacket(added[i].bytes)
    ensures delivered <= PacketBytes(added)
    ensures consumed == Concat(added) ==> PacketBytes(added) == delivered + if held == [] then [] else [held]
    ensures consumed == Concat(added) && held != [] ==> waitData && |held| == size
  {
    hide SenderOk, ReceiverOk, IsPacket;
    SenderConserves(added, q, wire, freed, leftLen);
    var all, ps := Concat(added), PacketBytes(added);
    ConcatIsFlatten(added);
    PacketsOfFlatten(ps, []);
    assert Flatten(ps) + [] == all && Packets([]) == [] && ps + [] == ps;
    DeliveredFirst(consumed, delivered, waitData, held, size, all);
    if consumed == all {
      LastPacket(consumed, delivered, waitData, held, size);
      WholeStream(ps);
    }
  }

  /** A packet the sender may be given: its lengths describe its body of 1 byte to 64 MB. */
  predicate WellFormed(x: Parts) {
    PartsOk(x) && Sum(x.lens) == |x.body| && 0 < |x.body| <= 67108864
  }

  /** The same for packets put together from head, lengths and body. */
  lemma EndToEndParts(parts: seq<Parts>, added: seq<Packet>, q: seq<IoVec>, wire: seq<byte>, freed: seq<Packet>,
                      leftLen: int, consumed: seq<byte>, delivered: seq<seq<byte>>, waitData: bool, held: seq<byte>,
                      size: nat)
    requires SenderOk(added, q, wire, freed, leftLen)
    requires ReceiverOk(consumed, delivered, waitData, held, size)
    requires consumed <= wire && |parts| == |added|
    requires forall i :: 0 <= i < |parts| ==> WellFormed(parts[i]) && added[i].bytes == Assemble(parts[i])
    ensures |delivered| <= |parts| && forall i :: 0 <= i < |delivered| ==>
      PartsOk(parts[i]) && delivered[i] == Assemble(parts[i])
    ensures consumed == Concat(added) && held == [] ==> |delivered| == |parts|
  {
    hide SenderOk, ReceiverOk, IsPacket, Assemble;
    forall i | 0 <= i < |added| ensures IsPacket(added[i].bytes) {
      PartsArePacket(parts[i]);
    }
    EndToEnd(added, q, wire, freed, leftLen, consumed, delivered, waitData, held, size);
    assert delivered + [] == delivered;
  }

  /** What was delivered are the first packets of any stream that starts with the bytes consumed. */
  lemma DeliveredFirst(consumed: seq<byte>, delivered: seq<seq<byte>>, waitData: bool, held: seq<byte>, size: nat,
                       all: seq<byte>)
    requires ReceiverOk(consumed, delivered, waitData, held, size) && consumed <= all
    ensures delivered <= Packets(all)
  {
    hide IsPacket;
    var out := Flatten(delivered);
    PacketsOfFlatten(delivered, []);
    assert out + [] == out && Packets([]) == [] && delivered + [] == delivered;
    assert out + all[|out|..] == all;
    PacketsOfPrefix(out, all[|out|..]);
  }

  /** What is held behind the packets delivered is a packet or no packet at all. */
  lemma LastPacket(consumed: seq<byte>, delivered: seq<seq<byte>>, waitData: bool, held: seq<byte>, size: nat)
    requires ReceiverOk(consumed, delivered, waitData, held, size)
    ensures Packets(consumed) == delivered + Packets(held)
    ensures Packets(held) == [] || (Packets(held) == [held] && waitData && |held| == size)
    ensures Flatten(Packets(consumed)) == consumed ==> Packets(held) == if held == [] then [] else [held]
  {
    hide IsPacket, BodyLen;
    PacketsOfFlatten(delivered, held);
    HeldPackets(waitData, held, size);
    if Packets(held) == [] {
      assert delivered + [] == delivered;
      assert |Flatten(delivered) + held| == |Flatten(delivered)| + |held|;
    }
  }

  lemma HeldPackets(waitData: bool, held: seq<byte>, size: nat)
    requires HeldOk(waitData, held, size)
    ensures Packets(held) == [] || (Packets(held) == [held] && waitData && |held| == size)
  {
    hide BodyLen;
    if StartsWithPacket(held) {
      assert held[..|held|] == held && held[|held|..] == [] && Packets([]) == [];
    }
  }

  lemma WholeStream(ps: seq<seq<byte>>)
    requires forall i :: 0 <= i < |ps| ==> IsPacket(ps[i])
    ensures Flatten(Packets(Flatten(ps))) == Flatten(ps)
  {
    hide IsPacket;
    PacketsOfFlatten(ps, []);
    assert Flatten(ps) + [] == Flatten(ps) && Packets([]) == [] && ps + [] == ps;
  }
}
