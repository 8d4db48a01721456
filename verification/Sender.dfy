/** The send queue of `CAGSender` on values: packets, what is left of each, and `sendmsg`. */
module SendQueue {
  import opened Basics
  import opened Bytes

  /** A malloc'ed packet; `id` stands for its address, so two packets are never confused. */
  datatype Packet = Packet(id: nat, bytes: seq<byte>)

  /** One `struct iovec`: `len` bytes of the packet from offset `off` on. */
  datatype IoVec = IoVec(pkt: Packet, off: nat, len: nat)

  function Concat(ps: seq<Packet>): seq<byte> {
    if ps == [] then [] else ps[0].bytes + Concat(ps[1..])
  }

  function PacketsOf(q: seq<IoVec>): (ps: seq<Packet>)
    ensures |ps| == |q|
  {
    if q == [] then [] else [q[0].pkt] + PacketsOf(q[1..])
  }

  /** The bytes an iovec array presents to the kernel. */
  function Pending(q: seq<IoVec>): seq<byte>
    requires Whole(q)
  {
    if q == [] then [] else q[0].pkt.bytes[q[0].off..] + Pending(q[1..])
  }

  function Total(q: seq<IoVec>): nat {
    if q == [] then 0 else q[0].len + Total(q[1..])
  }

  /** Each entry runs to the end of its packet. */
  predicate Whole(q: seq<IoVec>) {
    forall i :: 0 <= i < |q| ==> q[i].off + q[i].len == |q[i].pkt.bytes|
  }

  /** The packets the first loop of `Send` frees after the kernel took `n` bytes. */
  function Sent(q: seq<IoVec>, n: nat): (ps: seq<Packet>)
    ensures |ps| <= |q|
  {
    if q == [] || n < q[0].len then [] else [q[0].pkt] + Sent(q[1..], n - q[0].len)
  }

  /** The queue after the kernel took `n` bytes. */
  function Advance(q: seq<IoVec>, n: nat): (r: seq<IoVec>)
    ensures |r| == |q| - |Sent(q, n)|
  {
    if q == [] then []
    else if n >= q[0].len then Advance(q[1..], n - q[0].len)
    else [q[0].(off := q[0].off + n, len := q[0].len - n)] + q[1..]
  }

  // ---------------------------------------------------------------- laws

  lemma {:induction false} PendingTotal(q: seq<IoVec>)
    requires Whole(q)
    ensures |Pending(q)| == Total(q)
  {
    if q != [] {
      PendingTotal(q[1..]);
    }
  }

  lemma {:induction false} ConcatAppend(ps: seq<Packet>, qs: seq<Packet>)
    ensures Concat(ps + qs) == Concat(ps) + Concat(qs)
  {
    if ps == [] {
      assert ps + qs == qs;
    } else {
      assert (ps + qs)[1..] == ps[1..] + qs;
      ConcatAppend(ps[1..], qs);
    }
  }

  lemma {:induction false} QueueAppend(q: seq<IoVec>, v: IoVec)
    requires Whole(q) && Whole([v]) && v.off + v.len == |v.pkt.bytes|
    ensures PacketsOf(q + [v]) == PacketsOf(q) + [v.pkt]
    ensures Total(q + [v]) == Total(q) + v.len
    ensures Whole(q + [v]) && Pending(q + [v]) == Pending(q) + v.pkt.bytes[v.off..]
  {
    if q == [] {
      assert q + [v] == [v] && [v][1..] == [];
    } else {
      assert (q + [v])[1..] == q[1..] + [v];
      QueueAppend(q[1..], v);
    }
  }

  /** What is pending of each packet is at most the packet. */
  lemma {:induction false} PendingAtMostPackets(q: seq<IoVec>)
    requires Whole(q)
    ensures Total(q) <= |Concat(PacketsOf(q))|
  {
    if q != [] {
      PendingAtMostPackets(q[1..]);
      assert PacketsOf(q)[1..] == PacketsOf(q[1..]);
    }
  }

  lemma AdvanceHead(q: seq<IoVec>, n: nat)
    requires q != [] ==> n < q[0].len
    ensures Advance(q, n) == if q == [] then [] else [q[0].(off := q[0].off + n, len := q[0].len - n)] + q[1..]
    ensures PacketsOf(Advance(q, n)) == PacketsOf(q)
  {
    if q != [] {
      assert Advance(q, n)[1..] == q[1..];
    }
  }

  /** Taking `n` bytes drops exactly the packets it frees and keeps the rest in order. */
  lemma {:induction false} AdvanceKeepsPackets(q: seq<IoVec>, n: nat)
    requires Whole(q) && n <= Total(q)
    ensures Whole(Advance(q, n))
    ensures PacketsOf(q) == Sent(q, n) + PacketsOf(Advance(q, n))
    ensures Total(Advance(q, n)) == Total(q) - n
  {
    if q != [] {
      if n >= q[0].len {
        AdvanceKeepsPackets(q[1..], n - q[0].len);
        AssocCons(q[0].pkt, Sent(q[1..], n - q[0].len), PacketsOf(Advance(q, n)));
      } else {
        AdvanceInside(q, n);
      }
    }
  }

  lemma AssocCons(p: Packet, ps: seq<Packet>, qs: seq<Packet>)
    ensures [p] + (ps + qs) == [p] + ps + qs
  {
  }

  /** Fewer bytes than the first packet has left. */
  lemma AdvanceInside(q: seq<IoVec>, n: nat)
    requires Whole(q) && q != [] && n < q[0].len
    ensures Whole(Advance(q, n)) && Total(Advance(q, n)) == Total(q) - n
    ensures PacketsOf(q) == Sent(q, n) + PacketsOf(Advance(q, n))
  {
    hide PacketsOf;
    AdvanceHead(q, n);
    assert Advance(q, n)[1..] == q[1..];
    assert [] + PacketsOf(q) == PacketsOf(q);
  }

  /** Everything that went out whole is freed: what is left starts with a byte still to be sent. */
  lemma {:induction false} AdvanceFreesAllSent(q: seq<IoVec>, n: nat)
    ensures Advance(q, n) == [] || Advance(q, n)[0].len > 0
  {
    if q != [] && n >= q[0].len {
      AdvanceFreesAllSent(q[1..], n - q[0].len);
    }
  }

  lemma PendingCons(v: IoVec, q: seq<IoVec>)
    requires v.off + v.len == |v.pkt.bytes| && Whole(q)
    ensures Whole([v] + q) && Pending([v] + q) == v.pkt.bytes[v.off..] + Pending(q)
  {
    assert ([v] + q)[1..] == q;
  }

  /** The bytes taken and the bytes left are the bytes that were pending. */
  lemma {:induction false} AdvanceKeepsBytes(q: seq<IoVec>, n: nat)
    requires Whole(q) && n <= Total(q)
    ensures n <= |Pending(q)| && Whole(Advance(q, n))
    ensures Pending(q)[..n] + Pending(Advance(q, n)) == Pending(q)
  {
    hide Pending;
    PendingTotal(q);
    AdvanceKeepsPackets(q, n);
    if q != [] {
      var v, b, q' := q[0], q[0].pkt.bytes[q[0].off..], q[1..];
      PendingCons(v, q');
      assert q == [v] + q';
      var p := Pending(q');
      if n >= |b| {
        AdvanceKeepsBytes(q', n - |b|);
        TakeAcross(b, p, n, Pending(Advance(q', n - |b|)));
      } else {
        PendingCons(v.(off := v.off + n, len := v.len - n), q');
        assert v.pkt.bytes[v.off + n..] == b[n..];
        TakeWithin(b, p, n);
      }
    }
  }

  lemma TakeAcross(b: seq<byte>, p: seq<byte>, n: nat, rest: seq<byte>)
    requires |b| <= n <= |b| + |p| && p[..n - |b|] + rest == p
    ensures (b + p)[..n] + rest == b + p
  {
    assert (b + p)[..n] == b + p[..n - |b|];
    assert b + p[..n - |b|] + rest == b + (p[..n - |b|] + rest);
  }

  lemma TakeWithin(b: seq<byte>, p: seq<byte>, n: nat)
    requires n <= |b|
    ensures (b + p)[..n] + (b[n..] + p) == b + p
  {
    assert (b + p)[..n] == b[..n] && b[..n] + b[n..] == b;
  }

  // ---------------------------------------------------------------- the invariant of a run

  /** `added` are the packets accepted by AddPacket, `wire` the bytes the kernel took,
      `freed` the packets freed, each in order. */
  ghost predicate SenderOk(added: seq<Packet>, q: seq<IoVec>, wire: seq<byte>, freed: seq<Packet>, leftLen: int) {
    && Whole(q)
    && freed + PacketsOf(q) == added
    && wire + Pending(q) == Concat(added)
    && leftLen == Total(q) % TWO32
  }

  lemma AddKeeps(added: seq<Packet>, q: seq<IoVec>, wire: seq<byte>, freed: seq<Packet>, leftLen: int, p: Packet)
    requires SenderOk(added, q, wire, freed, leftLen)
    ensures SenderOk(added + [p], q + [IoVec(p, 0, |p.bytes|)], wire, freed, (leftLen + |p.bytes|) % TWO32)
  {
    hide Pending, PacketsOf, Total, Concat;
    var v := IoVec(p, 0, |p.bytes|);
    QueueAppend(q, v);
    ConcatAppend(added, [p]);
    assert freed + (PacketsOf(q) + [p]) == (freed + PacketsOf(q)) + [p];
    assert wire + (Pending(q) + p.bytes[0..]) == (wire + Pending(q)) + p.bytes;
    ConcatOne(p);
  }

  lemma ConcatOne(p: Packet)
    ensures Concat([p]) == p.bytes
  {
    assert [p][1..] == [];
  }

  lemma SendKeeps(added: seq<Packet>, q: seq<IoVec>, wire: seq<byte>, freed: seq<Packet>, leftLen: int, n: nat)
    requires SenderOk(added, q, wire, freed, leftLen) && n <= Total(q)
    ensures Whole(q) && n <= |Pending(q)|
    ensures SenderOk(added, Advance(q, n), wire + Pending(q)[..n], freed + Sent(q, n), (leftLen - n) % TWO32)
  {
    hide Advance, Sent, Pending, PacketsOf, Total, Concat, Whole;
    AdvanceKeepsPackets(q, n);
    AdvanceKeepsBytes(q, n);
    var q' := Advance(q, n);
    assert freed + PacketsOf(q) == (freed + Sent(q, n)) + PacketsOf(q');
    assert wire + Pending(q) == (wire + Pending(q)[..n]) + Pending(q');
  }

  lemma LongerPrefix(a: seq<byte>, b: seq<byte>, c: seq<byte>, d: seq<byte>)
    requires a + b == c + d && |a| <= |c|
    ensures a <= c
  {
    assert (a + b)[..|a|] == a && (c + d)[..|a|] == c[..|a|];
  }

  /** Bytes on the wire followed by bytes still queued are the accepted packets, in order;
      a freed packet is entirely on the wire, and each packet is freed or queued, not both. */
  lemma SenderConserves(added: seq<Packet>, q: seq<IoVec>, wire: seq<byte>, freed: seq<Packet>, leftLen: int)
    requires SenderOk(added, q, wire, freed, leftLen)
    ensures wire + Pending(q) == Concat(added)
    ensures Concat(freed) <= wire <= Concat(added)
    ensures |freed| + |q| == |added| && freed <= added
    ensures multiset(freed) + multiset(PacketsOf(q)) == multiset(added)
  {
    hide Pending, PacketsOf, Total, Concat, Whole;
    PendingTotal(q);
    PendingAtMostPackets(q);
    ConcatAppend(freed, PacketsOf(q));
    LongerPrefix(Concat(freed), Concat(PacketsOf(q)), wire, Pending(q));
  }
}

/** `CAGSender` */
module Sender {
  import opened Basics
  import opened Bytes
  import opened SendQueue

  /** What `sendmsg` did: took some bytes, would block, or failed for good. */
  datatype Kernel = Took(n: nat) | Again | Failed

  class Sender {
    var vec: array<IoVec>
    var pkt: array<Packet>
    var nVec: nat
    var currVec: nat
    var sended: nat
    var totalLen: nat
    var leftLen: nat
    const maxVecLen: nat

    var freed: seq<Packet>          // packets passed to `free`, in order
    ghost var added: seq<Packet>    // packets accepted, in order
    ghost var wire: seq<byte>       // bytes accepted by the kernel, in order

    /** Entry `i` of `pkt` belongs to entry `i` of `vec`. */
    ghost predicate Valid()
      reads this, vec, pkt
    {
      && currVec <= nVec && 0 < nVec && vec.Length == nVec && pkt.Length == nVec
      && (forall i :: 0 <= i < currVec ==> pkt[i] == vec[i].pkt)
      && SenderOk(added, vec[..currVec], wire, freed, leftLen)
    }

    /** The constructor followed by `Build` */
    constructor (maxQueueLen: nat)
      ensures Valid() && added == [] && wire == [] && freed == [] && maxVecLen == maxQueueLen
      ensures nVec == 256 && fresh(vec) && fresh(pkt)
    {
      maxVecLen := maxQueueLen;
      vec := new IoVec[256](_ => IoVec(Packet(0, []), 0, 0));
      pkt := new Packet[256](_ => Packet(0, []));
      nVec, currVec, sended, totalLen, leftLen := 256, 0, 0, 0, 0;
      freed, added, wire := [], [], [];
    }

    /** `realloc` to twice the size: the entries in use are kept. */
    method Grow()
      requires vec.Length == nVec && pkt.Length == nVec && currVec <= nVec
      modifies this`vec, this`pkt, this`nVec
      ensures nVec == 2 * old(nVec) && vec.Length == nVec && pkt.Length == nVec && fresh(vec) && fresh(pkt)
      ensures forall i :: 0 <= i < currVec ==> vec[i] == old(vec[i]) && pkt[i] == old(pkt[i])
    {
      var v, p, n := vec, pkt, nVec;
      vec := new IoVec[2 * n](i requires 0 <= i reads v => if i < v.Length then v[i] else IoVec(Packet(0, []), 0, 0));
      pkt := new Packet[2 * n](i requires 0 <= i reads p => if i < p.Length then p[i] else Packet(0, []));
      nVec := 2 * n;
    }

    /** `AddPacket`: refused only when the queue is at its limit, and then nothing changes. */
    method AddPacket(buf: Packet) returns (ret: int)
      requires Valid() && |buf.bytes| < TWO31
      modifies this, vec, pkt
      ensures Valid() && wire == old(wire) && freed == old(freed)
      ensures ret == if old(currVec) == old(nVec) && old(nVec) >= maxVecLen then -1 else 0
      ensures added == old(added) + if ret == 0 then [buf] else []
      ensures ret == 0 ==> vec[..currVec] == old(vec[..currVec]) + [IoVec(buf, 0, |buf.bytes|)]
      ensures ret == -1 ==> vec == old(vec) && pkt == old(pkt) && vec[..currVec] == old(vec[..currVec])
      ensures (vec == old(vec) || fresh(vec)) && (pkt == old(pkt) || fresh(pkt))
    {
      hide SenderOk;
      ghost var q := vec[..currVec];
      AddKeeps(added, q, wire, freed, leftLen, buf);
      if currVec == nVec {
        if nVec >= maxVecLen {
          return -1;
        }
        Grow();
      }
      vec[currVec] := IoVec(buf, 0, |buf.bytes|);
      pkt[currVec] := buf;
      currVec := currVec + 1;
      leftLen := (leftLen + |buf.bytes|) % TWO32;
      assert vec[..currVec] == q + [IoVec(buf, 0, |buf.bytes|)];
      added := added + [buf];
      ret := 0;
    }

    /** The first loop of `Send`: free what went out entirely; `sd` ends as the part of the
        next packet that went out. */
    method FreeSent(n: nat) returns (cursor: nat, sd: nat)
      requires currVec <= vec.Length && currVec <= pkt.Length
      requires forall i :: 0 <= i < currVec ==> pkt[i] == vec[i].pkt
      modifies this`freed
      ensures cursor <= currVec && freed == old(freed) + Sent(vec[..currVec], n)
      ensures Advance(vec[..currVec], n) == Advance(vec[cursor..currVec], sd)
      ensures cursor < currVec ==> sd < vec[cursor].len
    {
      cursor, sd := 0, n;
      ghost var q := vec[..currVec];
      while cursor < currVec && sd >= vec[cursor].len
        invariant cursor <= currVec
        invariant freed + Sent(q[cursor..], sd) == old(freed) + Sent(q, n)
        invariant Advance(q, n) == Advance(q[cursor..], sd)
      {
        assert q[cursor..][1..] == q[cursor + 1..] && q[cursor] == vec[cursor];
        sd := sd - vec[cursor].len;
        freed := freed + [pkt[cursor]];
        cursor := cursor + 1;
      }
      assert q[cursor..] == vec[cursor..currVec];
    }

    /** The last loop of `Send`: move the entries from `cursor` on to the front, in place. */
    method Compact(cursor: nat)
      requires cursor <= currVec <= vec.Length && currVec <= pkt.Length
      modifies vec, pkt, this`currVec
      ensures currVec == old(currVec) - cursor
      ensures vec[..currVec] == old(vec[cursor..currVec]) && pkt[..currVec] == old(pkt[cursor..currVec])
    {
      ghost var v, p := vec[..], pkt[..];
      var i, n := 0, currVec - cursor;
      while i < n
        invariant 0 <= i <= n && currVec == n + cursor
        invariant vec[..i] == v[cursor..cursor + i] && vec[i..] == v[i..]
        invariant pkt[..i] == p[cursor..cursor + i] && pkt[i..] == p[i..]
      {
        assert vec[cursor + i] == vec[i..][cursor] && pkt[cursor + i] == pkt[i..][cursor];
        vec[i] := vec[cursor + i];
        pkt[i] := pkt[cursor + i];
        i := i + 1;
      }
      currVec := i;
    }

    /** The queue after `n` bytes went out, with `vec` and `pkt` still in step. */
    method Consume(n: nat)
      requires currVec <= vec.Length && currVec <= pkt.Length && n <= Total(vec[..currVec])
      requires forall i :: 0 <= i < currVec ==> pkt[i] == vec[i].pkt
      modifies this`freed, this`currVec, vec, pkt
      ensures currVec <= old(currVec) && freed == old(freed) + Sent(old(vec[..currVec]), n)
      ensures vec[..currVec] == Advance(old(vec[..currVec]), n)
      ensures forall i :: 0 <= i < currVec ==> pkt[i] == vec[i].pkt
    {
      hide Sent, Total;
      var cursor, sd := FreeSent(n);
      ghost var r := vec[cursor..currVec];
      AdvanceHead(r, sd);
      if cursor < currVec {
        vec[cursor] := vec[cursor].(off := vec[cursor].off + sd, len := vec[cursor].len - sd);
        assert vec[cursor..currVec] == Advance(r, sd);
      }
      ghost var ps := pkt[cursor..currVec];
      Compact(cursor);
      forall i | 0 <= i < currVec ensures pkt[i] == vec[i].pkt {
        assert pkt[i] == pkt[..currVec][i] == ps[i] && vec[i] == vec[..currVec][i];
      }
    }

    /** `Send`, with the outcome of `sendmsg` on the whole queue given by `k`. */
    method Send(k: Kernel) returns (ret: int)
      requires Valid()
      requires k.Took? ==> k.n <= Total(vec[..currVec])
      modifies this, vec, pkt
      ensures Valid() && added == old(added) && vec == old(vec) && pkt == old(pkt)
      ensures ret == if old(leftLen) != 0 && k.Failed? then -1 else 0
      ensures if old(leftLen) != 0 && k.Took? && k.n > 0
        then
          && vec[..currVec] == Advance(old(vec[..currVec]), k.n)
          && freed == old(freed) + Sent(old(vec[..currVec]), k.n)
          && |wire| == |old(wire)| + k.n && old(wire) <= wire
        else wire == old(wire) && freed == old(freed) && vec[..currVec] == old(vec[..currVec])
    {
      hide SenderOk, Advance, Sent, Total;
      if leftLen == 0 || k.Again? {
        return 0;
      } else if k.Failed? {
        return -1;
      }
      ghost var q := vec[..currVec];
      SendKeeps(added, q, wire, freed, leftLen, k.n);
      totalLen := leftLen;
      sended := k.n;
      if k.n == 0 {
        return 0;
      }
      leftLen := (leftLen - k.n) % TWO32;
      Consume(k.n);
      wire := wire + Pending(q)[..k.n];
      ret := 0;
    }

    /** The destructor frees what is still queued: now every accepted packet is freed, once. */
    method Destroy()
      requires Valid()
      modifies this`freed
      ensures freed == added
    {
      hide Pending;
      ghost var q := vec[..currVec];
      for i := 0 to currVec
        invariant freed + PacketsOf(q[i..]) == added
      {
        assert q[i..][1..] == q[i + 1..] && q[i] == vec[i];
        freed := freed + [pkt[i]];
      }
    }
  }
}
