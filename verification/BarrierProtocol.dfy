/**
  The barrier protocol as a state machine over tasks: what `CBarrierUnit` promises
  its upstream and downstream neighbours, with the hash table abstracted to a map
  from key to queue.  `BarrierUnit` (BarrierUnit.dfy) refines it.
 */
module BarrierProtocol {

  /** A request. Two tasks are the same task when they are equal, so `id` plays the
      part of the pointer; the other fields decide whether the unit tracks it. */
  datatype Task = Task(id: nat, key: nat, admin: bool, migrate: bool, batch: bool) {
    /** Server-admin commands other than Migrate, and batch requests, are not queued. */
    predicate Bypasses() { (admin && !migrate) || batch }
  }

  datatype Limits = Limits(maxBarrier: int, maxKeyCount: int)

  datatype Event = Arrive(task: Task) | Reply(task: Task)

  /**
    `queues`    tasks admitted under a key and not yet answered, oldest first
    `inFlight`  tasks handed downstream and not yet answered
    `held`      tasks that entered and were not yet replied upstream
    `arrived`   every task that ever entered
    `admitted`  tracked tasks in the order they were put on a queue
    `sent`      tasks in the order they went downstream
    `replied`   tasks in the order they were replied upstream
    `refused`   tasks replied with EC_SERVER_BUSY because a limit was reached
    `peak`      largest number of keys held at once so far
   */
  datatype State = State(
    queues: map<nat, seq<Task>>,
    inFlight: set<Task>,
    held: set<Task>,
    arrived: set<Task>,
    admitted: seq<Task>,
    sent: seq<Task>,
    replied: seq<Task>,
    refused: seq<Task>,
    peak: nat)

  const Init := State(map[], {}, {}, {}, [], [], [], [], 0)

  function Max(a: int, b: int): int { if a < b then b else a }

  /** `TaskNotify` */
  function OnArrive(l: Limits, s: State, t: Task): State {
    var s := s.(arrived := s.arrived + {t});
    if t.Bypasses() then
      s.(held := s.held + {t}, inFlight := s.inFlight + {t}, sent := s.sent + [t])
    else if t.key in s.queues then
      if |s.queues[t.key]| < l.maxKeyCount then
        s.(held := s.held + {t}, admitted := s.admitted + [t],
           queues := s.queues[t.key := s.queues[t.key] + [t]])
      else
        s.(replied := s.replied + [t], refused := s.refused + [t])
    else if |s.queues| >= l.maxBarrier then
      s.(replied := s.replied + [t], refused := s.refused + [t])
    else
      var queues := s.queues[t.key := [t]];
      s.(held := s.held + {t}, admitted := s.admitted + [t], queues := queues,
         inFlight := s.inFlight + {t}, sent := s.sent + [t], peak := Max(s.peak, |queues|))
  }

  /** `ReplyNotify`, with its two error branches */
  function OnReply(s: State, t: Task): State {
    var s := s.(inFlight := s.inFlight - {t}, held := s.held - {t}, replied := s.replied + [t]);
    if t.Bypasses() || NotInBarrier(s, t) || NotBarrierHeader(s, t) then
      s
    else
      var rest := s.queues[t.key][1..];
      if rest == [] then
        s.(queues := s.queues - {t.key})
      else
        s.(queues := s.queues[t.key := rest], inFlight := s.inFlight + {rest[0]}, sent := s.sent + [rest[0]])
  }

  /** The guards of the branches that log "not in barrier" and "not barrier header". */
  predicate NotInBarrier(s: State, t: Task) { t.key !in s.queues }
  predicate NotBarrierHeader(s: State, t: Task) {
    t.key in s.queues && !(|s.queues[t.key]| > 0 && s.queues[t.key][0] == t)
  }

  function Step(l: Limits, s: State, e: Event): State {
    match e
    case Arrive(t) => OnArrive(l, s, t)
    case Reply(t) => OnReply(s, t)
  }

  /** The fields that the unit's own state mirrors. */
  predicate Mirrors(s: State, queues: map<nat, seq<Task>>, sent: seq<Task>, replied: seq<Task>, refused: seq<Task>) {
    s.queues == queues && s.sent == sent && s.replied == replied && s.refused == refused
  }

  lemma ArriveBranches(l: Limits, s: State, t: Task)
    ensures var s' := Step(l, s, Arrive(t));
      if t.Bypasses() then Mirrors(s', s.queues, s.sent + [t], s.replied, s.refused) && s'.peak == s.peak
      else if t.key in s.queues then
        && s'.peak == s.peak
        && if |s.queues[t.key]| < l.maxKeyCount
           then Mirrors(s', s.queues[t.key := s.queues[t.key] + [t]], s.sent, s.replied, s.refused)
           else Mirrors(s', s.queues, s.sent, s.replied + [t], s.refused + [t])
      else if |s.queues| >= l.maxBarrier then
        Mirrors(s', s.queues, s.sent, s.replied + [t], s.refused + [t]) && s'.peak == s.peak
      else
        && Mirrors(s', s.queues[t.key := [t]], s.sent + [t], s.replied, s.refused)
        && s'.peak == Max(s.peak, |s.queues| + 1)
  {
    assert s.queues[t.key := [t]].Keys == s.queues.Keys + {t.key};
  }

  lemma ReplyBranches(l: Limits, s: State, t: Task)
    requires !t.Bypasses() ==> !NotInBarrier(s, t) && !NotBarrierHeader(s, t)
    ensures var s' := Step(l, s, Reply(t));
      && s'.peak == s.peak
      && if t.Bypasses() then Mirrors(s', s.queues, s.sent, s.replied + [t], s.refused)
         else if |s.queues[t.key]| > 1 then
           Mirrors(s', s.queues[t.key := s.queues[t.key][1..]], s.sent + [s.queues[t.key][1]],
                   s.replied + [t], s.refused)
         else Mirrors(s', s.queues - {t.key}, s.sent, s.replied + [t], s.refused)
  {
  }

  /** The environment: a task arrives once, and downstream answers only what it holds. */
  predicate Enabled(s: State, e: Event) {
    match e
    case Arrive(t) => t !in s.arrived
    case Reply(t) => t in s.inFlight
  }

  predicate LegalRun(l: Limits, s: State, es: seq<Event>)
    decreases |es|
  {
    es == [] || (Enabled(s, es[0]) && LegalRun(l, Step(l, s, es[0]), es[1..]))
  }

  function Run(l: Limits, s: State, es: seq<Event>): State
    decreases |es|
  {
    if es == [] then s else Run(l, Step(l, s, es[0]), es[1..])
  }

  lemma {:induction false} RunExtends(l: Limits, s: State, es: seq<Event>, e: Event)
    requires LegalRun(l, s, es) && Enabled(Run(l, s, es), e)
    ensures LegalRun(l, s, es + [e]) && Run(l, s, es + [e]) == Step(l, Run(l, s, es), e)
    decreases |es|
  {
    if es == [] {
      assert Run(l, Step(l, s, e), []) == Step(l, s, e);
    } else {
      assert (es + [e])[1..] == es[1..] + [e];
      RunExtends(l, Step(l, s, es[0]), es[1..], e);
    }
  }

  /** The tracked tasks of one key, in order. */
  function OfKey(ts: seq<Task>, k: nat): seq<Task> {
    if ts == [] then []
    else
      var t := ts[|ts| - 1];
      OfKey(ts[..|ts| - 1], k) + (if t.key == k && !t.Bypasses() then [t] else [])
  }

  /** Tasks of key `k` that wait behind the one in flight. */
  function Waiting(s: State, k: nat): seq<Task> {
    if k in s.queues && |s.queues[k]| > 0 then s.queues[k][1..] else []
  }

  // ---------------------------------------------------------------- invariant

  /** One queue: within its limit, no task twice, all tracked tasks of key `k` still held. */
  ghost predicate QueueOk(l: Limits, held: set<Task>, k: nat, q: seq<Task>) {
    && 0 < |q| <= Max(1, l.maxKeyCount)
    && (forall i :: 0 <= i < |q| ==> q[i].key == k && !q[i].Bypasses() && q[i] in held)
    && (forall i, j :: 0 <= i < j < |q| ==> q[i] != q[j])
  }

  ghost predicate QueuesWellFormed(l: Limits, s: State) {
    forall k :: k in s.queues ==> QueueOk(l, s.held, k, s.queues[k])
  }

  ghost predicate FrontInFlight(s: State) {
    && (forall k :: k in s.queues && 0 < |s.queues[k]| ==> s.queues[k][0] in s.inFlight)
    && (forall t :: t in s.inFlight ==> t in s.held)
    && (forall t :: t in s.inFlight && !t.Bypasses() ==>
          t.key in s.queues && 0 < |s.queues[t.key]| && s.queues[t.key][0] == t)
  }

  ghost predicate HeldIsQueuedOrInFlight(s: State) {
    forall t :: t in s.held ==> t in s.inFlight || (t.key in s.queues && t in s.queues[t.key])
  }

  /** Every arrival is either replied exactly once or still held, never both. */
  ghost predicate Conserved(s: State) {
    multiset(s.arrived) == multiset(s.replied) + multiset(s.held)
  }

  /** Refused tasks were answered and never went any further. */
  ghost predicate RefusedNeverSent(s: State) {
    && (forall t :: t in s.refused ==> t in s.replied && t !in s.admitted && t !in s.sent)
    && (forall t :: t in s.admitted || t in s.sent ==> t in s.arrived)
  }

  ghost predicate Bounded(l: Limits, s: State) {
    |s.queues| <= s.peak <= Max(0, l.maxBarrier)
  }

  ghost predicate InOrder(s: State, k: nat) {
    OfKey(s.admitted, k) == OfKey(s.sent, k) + Waiting(s, k)
  }

  ghost predicate Fifo(s: State) {
    forall k :: InOrder(s, k)
  }

  ghost predicate Inv(l: Limits, s: State) {
    && QueuesWellFormed(l, s)
    && FrontInFlight(s)
    && HeldIsQueuedOrInFlight(s)
    && Conserved(s)
    && RefusedNeverSent(s)
    && Bounded(l, s)
    && Fifo(s)
  }

  // ---------------------------------------------------------------- preservation

  lemma OfKeyAppend(ts: seq<Task>, t: Task, k: nat)
    ensures OfKey(ts + [t], k) == OfKey(ts, k) + (if t.key == k && !t.Bypasses() then [t] else [])
  {
    assert (ts + [t])[..|ts|] == ts;
  }

  lemma MapGrows(m: map<nat, seq<Task>>, k: nat, q: seq<Task>)
    ensures |m[k := q]| == if k in m then |m| else |m| + 1
  {
    assert m[k := q].Keys == m.Keys + {k};
  }

  lemma MapShrinks(m: map<nat, seq<Task>>, k: nat)
    requires k in m
    ensures |m - {k}| == |m| - 1
  {
    assert (m - {k}).Keys == m.Keys - {k};
  }

  lemma HeldArrived(s: State, t: Task)
    requires Conserved(s)
    ensures t in s.held ==> t in s.arrived
    ensures t in s.replied ==> t in s.arrived && t !in s.held
  {
    assert multiset(s.arrived)[t] == multiset(s.replied)[t] + multiset(s.held)[t];
  }

  lemma ArriveKeepsQueues(l: Limits, s: State, t: Task)
    requires QueuesWellFormed(l, s) && t !in s.held
    ensures QueuesWellFormed(l, OnArrive(l, s, t))
  {
    var s' := OnArrive(l, s, t);
    forall k | k in s'.queues ensures QueueOk(l, s'.held, k, s'.queues[k]) {
      if k in s.queues {
        assert QueueOk(l, s.held, k, s.queues[k]);
      }
    }
  }

  lemma ArriveKeepsFront(l: Limits, s: State, t: Task)
    requires QueuesWellFormed(l, s) && FrontInFlight(s)
    ensures FrontInFlight(OnArrive(l, s, t))
  {
    var s' := OnArrive(l, s, t);
    forall k | k in s'.queues && 0 < |s'.queues[k]| ensures s'.queues[k][0] in s'.inFlight {
      assert k in s.queues ==> QueueOk(l, s.held, k, s.queues[k]);
    }
    forall u | u in s'.inFlight && !u.Bypasses()
      ensures u.key in s'.queues && 0 < |s'.queues[u.key]| && s'.queues[u.key][0] == u
    {
      assert u in s.inFlight || u == t;
    }
  }

  lemma ArriveKeepsHeld(l: Limits, s: State, t: Task)
    requires HeldIsQueuedOrInFlight(s)
    ensures HeldIsQueuedOrInFlight(OnArrive(l, s, t))
  {
    var s' := OnArrive(l, s, t);
    forall u | u in s'.held ensures u in s'.inFlight || (u.key in s'.queues && u in s'.queues[u.key]) {
      if u in s.held && u !in s.inFlight {
        var i :| 0 <= i < |s.queues[u.key]| && s.queues[u.key][i] == u;
        assert s'.queues[u.key][i] == u;
      } else if u == t && u !in s'.inFlight {
        assert s'.queues[t.key][|s.queues[t.key]|] == t;
      }
    }
  }

  lemma ArriveKeepsBounds(l: Limits, s: State, t: Task)
    requires Bounded(l, s)
    ensures Bounded(l, OnArrive(l, s, t))
  {
    MapGrows(s.queues, t.key, [t]);
    if t.key in s.queues {
      MapGrows(s.queues, t.key, s.queues[t.key] + [t]);
    }
  }

  lemma ArriveConserves(l: Limits, s: State, t: Task)
    requires Conserved(s) && t !in s.arrived
    ensures Conserved(OnArrive(l, s, t))
  {
    HeldArrived(s, t);
    assert multiset(s.arrived + {t}) == multiset(s.arrived) + multiset{t};
    assert multiset(s.held + {t}) == multiset(s.held) + multiset{t};
    assert multiset(s.replied + [t]) == multiset(s.replied) + multiset{t};
  }

  lemma ArriveInOrder(l: Limits, s: State, t: Task, k: nat)
    requires InOrder(s, k)
    requires t.key in s.queues ==> |s.queues[t.key]| > 0
    ensures InOrder(OnArrive(l, s, t), k)
  {
    hide OfKey;
    var s' := OnArrive(l, s, t);
    var sent, w := OfKey(s.sent, k), Waiting(s, k);
    if s'.admitted == s.admitted {
      assert Waiting(s', k) == w;
      if s'.sent != s.sent {
        OfKeyAppend(s.sent, t, k);
      }
    } else {
      OfKeyAppend(s.admitted, t, k);
      if t.key in s.queues {
        assert Waiting(s', k) == if k == t.key then w + [t] else w;
        assert (sent + w) + [t] == sent + (w + [t]);
      } else {
        OfKeyAppend(s.sent, t, k);
        assert Waiting(s', k) == w;
        assert k == t.key ==> w == [];
      }
    }
  }

  lemma ReplyFindsFront(s: State, t: Task)
    requires FrontInFlight(s) && t in s.inFlight && !t.Bypasses()
    ensures !NotInBarrier(s, t) && !NotBarrierHeader(s, t)
  {
  }

  lemma ReplyKeepsQueues(l: Limits, s: State, t: Task)
    requires QueuesWellFormed(l, s) && FrontInFlight(s) && t in s.inFlight
    ensures QueuesWellFormed(l, OnReply(s, t))
  {
    var s' := OnReply(s, t);
    forall k | k in s'.queues ensures QueueOk(l, s'.held, k, s'.queues[k]) {
      assert QueueOk(l, s.held, k, s.queues[k]);
    }
  }

  lemma ReplyKeepsFront(l: Limits, s: State, t: Task)
    requires QueuesWellFormed(l, s) && FrontInFlight(s) && t in s.inFlight
    ensures FrontInFlight(OnReply(s, t))
  {
    if t.Bypasses() {
      forall k | k in s.queues ensures s.queues[k][0] != t {
        assert QueueOk(l, s.held, k, s.queues[k]);
      }
    } else {
      var q := s.queues[t.key];
      assert QueueOk(l, s.held, t.key, q);
      forall k | k in s.queues && k != t.key ensures s.queues[k][0] != t {
        assert QueueOk(l, s.held, k, s.queues[k]);
      }
    }
  }

  lemma ReplyKeepsHeld(l: Limits, s: State, t: Task)
    requires QueuesWellFormed(l, s) && FrontInFlight(s) && t in s.inFlight && HeldIsQueuedOrInFlight(s)
    ensures HeldIsQueuedOrInFlight(OnReply(s, t))
  {
    if !t.Bypasses() {
      var q := s.queues[t.key];
      assert q == [t] + q[1..];
      assert forall u :: u in q && u != t ==> u in q[1..];
    }
  }

  lemma ReplyKeepsBounds(l: Limits, s: State, t: Task)
    requires Bounded(l, s) && FrontInFlight(s) && t in s.inFlight
    ensures Bounded(l, OnReply(s, t))
  {
    if !t.Bypasses() {
      MapShrinks(s.queues, t.key);
      MapGrows(s.queues, t.key, s.queues[t.key][1..]);
    }
  }

  lemma ReplyConserves(s: State, t: Task)
    requires Conserved(s) && t in s.held
    ensures Conserved(OnReply(s, t))
  {
    assert multiset(s.held) == multiset(s.held - {t}) + multiset{t};
    assert multiset(s.replied + [t]) == multiset(s.replied) + multiset{t};
  }

  lemma ReplyInOrder(s: State, t: Task, k: nat)
    requires InOrder(s, k) && FrontInFlight(s) && t in s.inFlight
    requires t.key in s.queues ==> forall u :: u in s.queues[t.key] ==> u.key == t.key && !u.Bypasses()
    ensures InOrder(OnReply(s, t), k)
  {
    hide OfKey;
    var s' := OnReply(s, t);
    if t.Bypasses() {
      assert Waiting(s', k) == Waiting(s, k);
    } else {
      var rest := s.queues[t.key][1..];
      if rest == [] {
        assert Waiting(s', k) == Waiting(s, k);
      } else {
        assert rest[0] in s.queues[t.key];
        OfKeyAppend(s.sent, rest[0], k);
        if k == t.key {
          assert Waiting(s, k) == [rest[0]] + Waiting(s', k);
        } else {
          assert Waiting(s', k) == Waiting(s, k);
        }
      }
    }
  }

  lemma ArriveKeepsRefusals(l: Limits, s: State, t: Task)
    requires RefusedNeverSent(s) && Conserved(s) && t !in s.arrived
    ensures RefusedNeverSent(OnArrive(l, s, t))
  {
    HeldArrived(s, t);
    var s' := OnArrive(l, s, t);
    assert forall u :: u in s'.refused ==> u in s.refused || u == t;
    assert forall u :: u in s'.admitted || u in s'.sent ==> u in s.admitted || u in s.sent || u == t;
    assert forall u :: u in s.replied ==> u in s'.replied;
    assert t in s'.refused ==> s'.replied[|s.replied|] == t;
  }

  lemma ReplyKeepsRefusals(l: Limits, s: State, t: Task)
    requires RefusedNeverSent(s) && Conserved(s) && QueuesWellFormed(l, s) && FrontInFlight(s) && t in s.inFlight
    ensures RefusedNeverSent(OnReply(s, t))
  {
    var s' := OnReply(s, t);
    assert forall u :: u in s.replied ==> u in s'.replied;
    if s'.sent != s.sent {
      var next := s.queues[t.key][1];
      assert QueueOk(l, s.held, t.key, s.queues[t.key]);
      HeldArrived(s, next);
      assert forall u :: u in s'.sent ==> u in s.sent || u == next;
    }
  }

  lemma StepKeepsFifo(l: Limits, s: State, e: Event)
    requires Inv(l, s) && Enabled(s, e)
    ensures Fifo(Step(l, s, e))
  {
    forall k ensures InOrder(Step(l, s, e), k) {
      assert InOrder(s, k);
      match e
      case Arrive(t) =>
        assert t.key in s.queues ==> QueueOk(l, s.held, t.key, s.queues[t.key]);
        ArriveInOrder(l, s, t, k);
      case Reply(t) =>
        assert t.key in s.queues ==> QueueOk(l, s.held, t.key, s.queues[t.key]);
        ReplyInOrder(s, t, k);
    }
  }

  lemma StepKeepsInv(l: Limits, s: State, e: Event)
    requires Inv(l, s) && Enabled(s, e)
    ensures Inv(l, Step(l, s, e))
  {
    StepKeepsFifo(l, s, e);
    match e
    case Arrive(t) =>
      HeldArrived(s, t);
      ArriveKeepsQueues(l, s, t);
      ArriveKeepsFront(l, s, t);
      ArriveKeepsHeld(l, s, t);
      ArriveKeepsBounds(l, s, t);
      ArriveConserves(l, s, t);
      ArriveKeepsRefusals(l, s, t);
    case Reply(t) =>
      ReplyKeepsQueues(l, s, t);
      ReplyKeepsFront(l, s, t);
      ReplyKeepsHeld(l, s, t);
      ReplyKeepsBounds(l, s, t);
      ReplyConserves(s, t);
      ReplyKeepsRefusals(l, s, t);
  }

  lemma {:induction false} RunKeepsInv(l: Limits, s: State, es: seq<Event>)
    requires Inv(l, s) && LegalRun(l, s, es)
    ensures Inv(l, Run(l, s, es))
    decreases |es|
  {
    if es != [] {
      StepKeepsInv(l, s, es[0]);
      RunKeepsInv(l, Step(l, s, es[0]), es[1..]);
    }
  }

  lemma InitInv(l: Limits)
    ensures Inv(l, Init)
  {
    forall k ensures InOrder(Init, k) {}
  }

  // ---------------------------------------------------------------- theorems

  /** In every run: at most one tracked task per key is downstream, it is the front of
      its queue, and a key's tasks go downstream in exactly their order of admission. */
  lemma Serialised(l: Limits, es: seq<Event>, t: Task, u: Task)
    requires LegalRun(l, Init, es)
    ensures var s := Run(l, Init, es);
      && (t in s.inFlight && u in s.inFlight && !t.Bypasses() && !u.Bypasses() && t.key == u.key ==> t == u)
      && (t in s.inFlight && !t.Bypasses() ==> t.key in s.queues && s.queues[t.key] != [] && s.queues[t.key][0] == t)
      && (t.key in s.queues ==> s.queues[t.key] != [] && s.queues[t.key][0] in s.inFlight)
      && OfKey(s.admitted, t.key) == OfKey(s.sent, t.key) + Waiting(s, t.key)
      && OfKey(s.sent, t.key) <= OfKey(s.admitted, t.key)
  {
    InitInv(l);
    RunKeepsInv(l, Init, es);
    assert InOrder(Run(l, Init, es), t.key);
  }

  /** In every run `peak` is the largest number of keys held at once: no moment had more, and
      one had as many. */
  lemma {:induction false} PeakIsHighWater(l: Limits, es: seq<Event>)
    requires LegalRun(l, Init, es)
    ensures forall k: nat :: k <= |es| ==> HeldAfter(l, es, k) <= Run(l, Init, es).peak
    ensures exists k: nat :: k <= |es| && HeldAfter(l, es, k) == Run(l, Init, es).peak
    decreases |es|
  {
    hide Run, LegalRun, OnArrive, OnReply;
    if es == [] {
      RunNothing(l, Init);
      assert HeldAfter(l, es, 0) == 0 by { assert es[..0] == []; }
    } else {
      var n := |es| - 1;
      var init, e := es[..n], es[n];
      assert es == init + [e];
      RunSplits(l, Init, init, e);
      PeakIsHighWater(l, init);
      assert HeldAfter(l, init, n) == |Run(l, Init, init).queues| by { assert init[..n] == init; }
      PeakStep(l, Run(l, Init, init), e);
      forall k: nat | k <= n ensures HeldAfter(l, es, k) == HeldAfter(l, init, k) {
        assert es[..k] == init[..k];
      }
      assert HeldAfter(l, es, n + 1) == |Run(l, Init, es).queues| by { assert es[..n + 1] == es; }
      var k: nat :| k <= n && HeldAfter(l, init, k) == Run(l, Init, init).peak;
      assert HeldAfter(l, es, k) == HeldAfter(l, init, k);
    }
  }

  /** The number of keys held after the first `k` events. */
  function HeldAfter(l: Limits, es: seq<Event>, k: nat): nat
    requires k <= |es|
  {
    |Run(l, Init, es[..k]).queues|
  }

  lemma RunNothing(l: Limits, s: State)
    ensures LegalRun(l, s, []) && Run(l, s, []) == s
  {
  }

  lemma {:induction false} RunSplits(l: Limits, s: State, es: seq<Event>, e: Event)
    requires LegalRun(l, s, es + [e])
    ensures LegalRun(l, s, es) && Enabled(Run(l, s, es), e)
    ensures Run(l, s, es + [e]) == Step(l, Run(l, s, es), e)
    decreases |es|
  {
    hide Step, Enabled;
    if es == [] {
      assert es + [e] == [e] && [e][1..] == [];
      RunNothing(l, Step(l, s, e));
    } else {
      assert (es + [e])[1..] == es[1..] + [e] && (es + [e])[0] == es[0];
      RunSplits(l, Step(l, s, es[0]), es[1..], e);
    }
  }

  /** A step raises the mark exactly to the number of keys then held, or leaves it. */
  lemma PeakStep(l: Limits, s: State, e: Event)
    requires |s.queues| <= s.peak
    ensures var s' := Step(l, s, e); s'.peak == Max(s.peak, |s'.queues|)
  {
    var t := e.task;
    MapGrows(s.queues, t.key, [t]);
    if t.key in s.queues {
      MapGrows(s.queues, t.key, s.queues[t.key] + [t]);
      MapShrinks(s.queues, t.key);
      if s.queues[t.key] != [] {
        MapGrows(s.queues, t.key, s.queues[t.key][1..]);
      }
    }
  }

  /** On the fields of the tasks: in every run, two requests of one key that are downstream
      together are the same one, and at the front of the key's queue, unless one of them is a batch
      request or a server-admin command other than Migrate. */
  lemma RequestsSerialised(l: Limits, es: seq<Event>, t: Task, u: Task)
    requires LegalRun(l, Init, es) && t in Run(l, Init, es).inFlight && u in Run(l, Init, es).inFlight
    requires t.key == u.key && !t.batch && !u.batch && (t.admin ==> t.migrate) && (u.admin ==> u.migrate)
    ensures t == u
    ensures var q := Run(l, Init, es).queues; t.key in q && q[t.key] != [] && q[t.key][0] == t
  {
    Serialised(l, es, t, u);
  }

  /** In every run a batch request, or a server-admin command other than Migrate, goes downstream
      at its arrival, whatever the queues hold, and changes none of them; its answer is passed on
      at once. */
  lemma OthersPass(l: Limits, es: seq<Event>, t: Task)
    requires t.batch || (t.admin && !t.migrate)
    ensures var s := Run(l, Init, es); var s' := Step(l, s, Arrive(t));
      s'.sent == s.sent + [t] && t in s'.inFlight && s'.queues == s.queues && s'.refused == s.refused
    ensures var s := Run(l, Init, es); var s' := Step(l, s, Reply(t));
      s'.replied == s.replied + [t] && s'.queues == s.queues && s'.sent == s.sent
  {
  }

  /** In every run a request that the queues see is refused exactly when its key's queue, or with
      no queue the table, is full; otherwise it is put last on the queue of its key, and sent at
      once exactly when it is the first there. */
  lemma ArrivalFate(l: Limits, es: seq<Event>, t: Task)
    requires LegalRun(l, Init, es) && !t.batch && (t.admin ==> t.migrate)
    requires t !in Run(l, Init, es).arrived
    ensures Fate(l, Run(l, Init, es), t, Step(l, Run(l, Init, es), Arrive(t)))
  {
    LimitsRespected(l, es, t.key);
    FateOf(l, Run(l, Init, es), t);
  }

  /** What becomes of a request that the queues see. */
  predicate Fate(l: Limits, s: State, t: Task, s': State) {
    var q := if t.key in s.queues then s.queues[t.key] else [];
    var full := if q == [] then |s.queues| >= l.maxBarrier else |q| >= l.maxKeyCount;
    if full then
      s'.refused == s.refused + [t] && s'.replied == s.replied + [t] && s'.sent == s.sent && s'.queues == s.queues
    else
      && s'.refused == s.refused && s'.replied == s.replied && s'.queues == s.queues[t.key := q + [t]]
      && s'.sent == s.sent + if q == [] then [t] else []
  }

  lemma FateOf(l: Limits, s: State, t: Task)
    requires !t.batch && (t.admin ==> t.migrate) && (t.key in s.queues ==> s.queues[t.key] != [])
    ensures Fate(l, s, t, Step(l, s, Arrive(t)))
  {
    assert [] + [t] == [t] && s.sent + [] == s.sent;
  }

  /** In every run: both admission limits hold. */
  lemma LimitsRespected(l: Limits, es: seq<Event>, k: nat)
    requires LegalRun(l, Init, es)
    ensures var s := Run(l, Init, es);
      && |s.queues| <= s.peak <= Max(0, l.maxBarrier)
      && (k in s.queues ==> 1 <= |s.queues[k]| <= Max(1, l.maxKeyCount))
  {
    InitInv(l);
    RunKeepsInv(l, Init, es);
  }

  /** In every run: arrivals = replied + held, no task is replied twice, and what is
      held is queued or in flight. */
  lemma RepliedAtMostOnce(l: Limits, es: seq<Event>, t: Task)
    requires LegalRun(l, Init, es)
    ensures var s := Run(l, Init, es);
      && |s.arrived| == |s.replied| + |s.held|
      && multiset(s.replied)[t] <= 1
      && (t in s.arrived <==> t in s.replied || t in s.held)
      && !(t in s.replied && t in s.held)
      && (t in s.held ==> t in s.inFlight || (t.key in s.queues && t in s.queues[t.key]))
  {
    InitInv(l);
    RunKeepsInv(l, Init, es);
    var s := Run(l, Init, es);
    HeldArrived(s, t);
    assert |multiset(s.arrived)| == |s.arrived| && |multiset(s.held)| == |s.held|;
    assert |multiset(s.replied)| == |s.replied|;
    assert multiset(s.arrived)[t] == multiset(s.replied)[t] + multiset(s.held)[t];
  }

  /** In every run: a task refused as busy was replied, was never queued and never went downstream. */
  lemma RefusedGoNowhere(l: Limits, es: seq<Event>, t: Task)
    requires LegalRun(l, Init, es) && t in Run(l, Init, es).refused
    ensures var s := Run(l, Init, es);
      t in s.replied && t !in s.admitted && t !in s.sent && t !in s.held
  {
    InitInv(l);
    RunKeepsInv(l, Init, es);
    HeldArrived(Run(l, Init, es), t);
  }

  /** In every run: a reply the environment can make never takes an error branch. */
  lemma ErrorBranchesUnreachable(l: Limits, es: seq<Event>, t: Task)
    requires LegalRun(l, Init, es) && Enabled(Run(l, Init, es), Reply(t)) && !t.Bypasses()
    ensures !NotInBarrier(Run(l, Init, es), t) && !NotBarrierHeader(Run(l, Init, es), t)
  {
    InitInv(l);
    RunKeepsInv(l, Init, es);
    ReplyFindsFront(Run(l, Init, es), t);
  }

  /** In every run: a reply for key `k` moves each task waiting under `k` one place up,
      sends the next one at once, and leaves every other key's queue alone. */
  lemma ReplyAdvancesQueue(l: Limits, es: seq<Event>, t: Task, i: nat, k: nat)
    requires LegalRun(l, Init, es) && Enabled(Run(l, Init, es), Reply(t)) && !t.Bypasses()
    ensures var s := Run(l, Init, es); var s' := Step(l, s, Reply(t));
      && (k != t.key ==> (k in s.queues <==> k in s'.queues) && (k in s.queues ==> s.queues[k] == s'.queues[k]))
      && t.key in s.queues
      && (0 < i < |s.queues[t.key]| ==>
            && t.key in s'.queues && |s'.queues[t.key]| == |s.queues[t.key]| - 1
            && s'.queues[t.key][i - 1] == s.queues[t.key][i]
            && s'.sent == s.sent + [s.queues[t.key][1]]
            && s.queues[t.key][1] in s'.inFlight)
  {
    InitInv(l);
    RunKeepsInv(l, Init, es);
    ReplyFindsFront(Run(l, Init, es), t);
  }
}
