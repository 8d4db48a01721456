/** The pending-request accounting of `CFrontWorker` on values. */
module Accounting {
  import opened Basics

  /** `recorded` counts the serials that became pending; `elapsed` is REQUEST_ELAPES. */
  datatype Stat = Stat(pending: map<nat, nat>, requests: nat, responses: nat, elapsed: int, recorded: nat)

  const Fresh := Stat(map[], 0, 0, 0, 0)

  const TIMEOUT := 10_000_000

  /** Microseconds since `t`, stored into an `int`. */
  function Elapse(now: nat, t: nat): Int32 { Wrap32(now - t) }

  predicate Expired(now: nat, t: nat) { Elapse(now, t) > TIMEOUT }

  /** For spans below 2^31 microseconds the elapse is the time passed, and an entry expires once
      more than ten seconds have passed. */
  lemma ElapseIs(t: nat, span: nat)
    requires span < 0x8000_0000
    ensures Elapse(t + span, t) == span && (Expired(t + span, t) <==> span > 10_000_000)
  {
  }

  /** One entry leaves the map and is counted as a request. */
  function Count(s: Stat, seqNr: nat, now: nat): Stat
    requires seqNr in s.pending
  {
    s.(pending := s.pending - {seqNr}, requests := s.requests + 1, elapsed := s.elapsed + Elapse(now, s.pending[seqNr]))
  }

  /** `Recv` after a request was dispatched */
  function Record(s: Stat, seqNr: nat, now: nat): Stat {
    s.(pending := s.pending[seqNr := now], recorded := s.recorded + if seqNr in s.pending then 0 else 1)
  }

  /** `SendResponse` */
  function Respond(s: Stat, seqNr: nat, now: nat): Stat {
    if seqNr in s.pending then Count(s, seqNr, now).(responses := s.responses + 1) else s
  }

  /** Each serial that became pending has been counted once or is still pending. */
  predicate Accounted(s: Stat) {
    s.recorded == s.requests + |s.pending| && s.responses <= s.requests
  }

  /** What one event does to the entry it is about, and to no other. */
  lemma EventIs(s: Stat, k: nat, j: nat, now: nat)
    requires j != k
    ensures var r := Record(s, k, now);
      k in r.pending && r.pending[k] == now && r.requests == s.requests && r.elapsed == s.elapsed
    ensures var r := Respond(s, k, now);
      if k in s.pending then
        && k !in r.pending && r.requests == s.requests + 1 && r.responses == s.responses + 1
        && r.elapsed == s.elapsed + Elapse(now, s.pending[k])
      else r == s
    ensures forall r :: r == Record(s, k, now) || r == Respond(s, k, now) ==>
      (j in r.pending <==> j in s.pending) && (j in s.pending ==> r.pending[j] == s.pending[j])
  {
    hide Elapse;
  }

  lemma CountKeeps(s: Stat, seqNr: nat, now: nat)
    requires Accounted(s) && seqNr in s.pending
    ensures Accounted(Count(s, seqNr, now)) && |Count(s, seqNr, now).pending| == |s.pending| - 1
  {
    assert (s.pending - {seqNr}).Keys == s.pending.Keys - {seqNr};
  }

  /** The time all pending requests have waited, as REQUEST_ELAPES would count it now. */
  ghost function Waited(m: map<nat, nat>, now: nat): int
    decreases |m|
  {
    if m == map[] then 0
    else
      var k :| k in m;
      assert |m - {k}| < |m| by { assert (m - {k}).Keys == m.Keys - {k}; }
      Elapse(now, m[k]) + Waited(m - {k}, now)
  }

  /** The order in which the entries are counted does not matter. */
  lemma {:induction false} WaitedOut(m: map<nat, nat>, k: nat, now: nat)
    requires k in m
    ensures Waited(m, now) == Elapse(now, m[k]) + Waited(m - {k}, now)
    decreases |m|
  {
    hide Elapse;
    assert m != map[];
    var j :| j in m && Waited(m, now) == Elapse(now, m[j]) + Waited(m - {j}, now);
    assert (m - {j}).Keys == m.Keys - {j} && (m - {k}).Keys == m.Keys - {k};
    if j != k {
      WaitedOut(m - {j}, k, now);
      WaitedOut(m - {k}, j, now);
      assert m - {j} - {k} == m - {k} - {j};
    }
  }

  lemma RecordKeeps(s: Stat, seqNr: nat, now: nat)
    requires Accounted(s)
    ensures Accounted(Record(s, seqNr, now))
  {
    assert s.pending[seqNr := now].Keys == s.pending.Keys + {seqNr};
  }

  lemma RespondKeeps(s: Stat, seqNr: nat, now: nat)
    requires Accounted(s)
    ensures Accounted(Respond(s, seqNr, now))
  {
    if seqNr in s.pending {
      assert (s.pending - {seqNr}).Keys == s.pending.Keys - {seqNr};
    }
  }

  datatype Event = Dispatched(seqNr: nat, now: nat) | Answered(seqNr: nat, now: nat) | TimedOut(seqNr: nat, now: nat)

  /** A response may come for any serial, late or unknown; a timeout only for a pending one. */
  function Step(s: Stat, e: Event): Stat {
    match e
    case Dispatched(k, now) => Record(s, k, now)
    case Answered(k, now) => Respond(s, k, now)
    case TimedOut(k, now) => if k in s.pending then Count(s, k, now) else s
  }

  function Run(es: seq<Event>): Stat {
    if es == [] then Fresh else Step(Run(es[..|es| - 1]), es[|es| - 1])
  }

  /** Dispatches that found their serial not pending, over a run. */
  function NewSerials(es: seq<Event>): nat {
    if es == [] then 0
    else
      var init, e := es[..|es| - 1], es[|es| - 1];
      NewSerials(init) + if e.Dispatched? && e.seqNr !in Run(init).pending then 1 else 0
  }

  /** In every run, whatever the order of dispatches, replies, late replies and timeouts, each
      new serial is counted as a request once or is still pending. */
  lemma {:induction false} RunAccounted(es: seq<Event>)
    ensures Accounted(Run(es))
    ensures NewSerials(es) == Run(es).requests + |Run(es).pending|
  {
    if es != [] {
      var init, e := es[..|es| - 1], es[|es| - 1];
      RunAccounted(init);
      var s := Run(init);
      match e
      case Dispatched(k, now) => RecordKeeps(s, k, now);
      case Answered(k, now) => RespondKeeps(s, k, now);
      case TimedOut(k, now) =>
        if k in s.pending {
          CountKeeps(s, k, now);
        }
    }
  }

  /** Replies that found their serial pending, over a run. */
  function Replies(es: seq<Event>): nat {
    if es == [] then 0
    else
      var init, e := es[..|es| - 1], es[|es| - 1];
      Replies(init) + if e.Answered? && e.seqNr in Run(init).pending then 1 else 0
  }

  /** Timeouts of pending serials, over a run. */
  function Timeouts(es: seq<Event>): nat {
    if es == [] then 0
    else
      var init, e := es[..|es| - 1], es[|es| - 1];
      Timeouts(init) + if e.TimedOut? && e.seqNr in Run(init).pending then 1 else 0
  }

  /** In every run the responses are the replies to pending serials, and the requests those and
      the timeouts. */
  lemma {:induction false} RunCounts(es: seq<Event>)
    ensures Run(es).responses == Replies(es) && Run(es).requests == Replies(es) + Timeouts(es)
  {
    hide Elapse;
    if es != [] {
      RunCounts(es[..|es| - 1]);
    }
  }

  /** After the whole life of a worker nothing is pending, so every serial was counted once. */
  lemma NothingLost(s: Stat)
    requires Accounted(s) && s.pending == map[]
    ensures s.requests == s.recorded && s.responses <= s.recorded
  {
  }
}

/** `CFrontWorker` */
module FrontWorker {
  import opened Accounting

  class Worker {
    var pkg2Elapse: map<nat, nat>
    var requests: nat              // REQUESTS counted by this worker
    var responses: nat             // RESPONSES counted by this worker
    var elapsed: int
    ghost var recorded: nat

    ghost function View(): Stat
      reads this
    {
      Stat(pkg2Elapse, requests, responses, elapsed, recorded)
    }

    ghost predicate Valid()
      reads this
    {
      Accounted(View())
    }

    constructor ()
      ensures Valid() && View() == Fresh
    {
      pkg2Elapse, requests, responses, elapsed, recorded := map[], 0, 0, 0, 0;
    }

    method Recv(seqNr: nat, now: nat)
      requires Valid()
      modifies this
      ensures Valid() && View() == Record(old(View()), seqNr, now)
    {
      RecordKeeps(View(), seqNr, now);
      recorded := recorded + if seqNr in pkg2Elapse then 0 else 1;
      pkg2Elapse := pkg2Elapse[seqNr := now];
    }

    method SendResponse(seqNr: nat, now: nat)
      requires Valid()
      modifies this
      ensures Valid() && View() == Respond(old(View()), seqNr, now)
    {
      RespondKeeps(View(), seqNr, now);
      if seqNr in pkg2Elapse {
        elapsed := elapsed + Elapse(now, pkg2Elapse[seqNr]);
        pkg2Elapse := pkg2Elapse - {seqNr};
        requests := requests + 1;
        responses := responses + 1;
      }
    }

    /** One entry counted and erased. */
    method CountOne(k: nat, now: nat)
      requires Valid() && k in pkg2Elapse
      modifies this
      ensures Valid() && View() == Count(old(View()), k, now)
    {
      CountKeeps(View(), k, now);
      elapsed := elapsed + Elapse(now, pkg2Elapse[k]);
      pkg2Elapse := pkg2Elapse - {k};
      requests := requests + 1;
    }

    /** `TimerNotify`: exactly the entries whose elapse, as an `int`, exceeds ten seconds are counted
        and erased. */
    method TimerNotify(now: nat)
      requires Valid()
      modifies this
      ensures Valid() && responses == old(responses) && recorded == old(recorded)
      ensures pkg2Elapse == map k | k in old(pkg2Elapse) && !Expired(now, old(pkg2Elapse)[k]) :: old(pkg2Elapse)[k]
      ensures elapsed + Waited(pkg2Elapse, now) == old(elapsed) + Waited(old(pkg2Elapse), now)
    {
      hide Waited, Elapse;
      var todo := pkg2Elapse.Keys;
      while todo != {}
        invariant Valid() && responses == old(responses) && recorded == old(recorded) && todo <= pkg2Elapse.Keys
        invariant forall k :: k in pkg2Elapse ==> k in old(pkg2Elapse) && pkg2Elapse[k] == old(pkg2Elapse)[k]
        invariant forall k :: k in old(pkg2Elapse) && k !in pkg2Elapse ==> Expired(now, old(pkg2Elapse)[k])
        invariant forall k :: k in pkg2Elapse && k !in todo ==> !Expired(now, pkg2Elapse[k])
        invariant elapsed + Waited(pkg2Elapse, now) == old(elapsed) + Waited(old(pkg2Elapse), now)
        decreases todo
      {
        var k :| k in todo;
        todo := todo - {k};
        if Expired(now, pkg2Elapse[k]) {
          WaitedOut(pkg2Elapse, k, now);
          CountOne(k, now);
        }
      }
    }

    /** The destructor counts whatever is still pending. */
    method Destroy(now: nat)
      requires Valid()
      modifies this
      ensures Valid() && pkg2Elapse == map[] && responses == old(responses) && recorded == old(recorded)
      ensures requests == recorded && responses <= requests
      ensures elapsed == old(elapsed) + Waited(old(pkg2Elapse), now)
    {
      while pkg2Elapse != map[]
        invariant Valid() && responses == old(responses) && recorded == old(recorded)
        invariant elapsed + Waited(pkg2Elapse, now) == old(elapsed) + Waited(old(pkg2Elapse), now)
        decreases pkg2Elapse.Keys
      {
        var k :| k in pkg2Elapse;
        WaitedOut(pkg2Elapse, k, now);
        CountOne(k, now);
      }
      NothingLost(View());
    }
  }
}
