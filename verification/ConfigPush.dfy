/**
  The configuration push protocol: agents send heartbeats to a master and download its
  configuration when the reply announces a newer one.  Connections are FIFO in both directions
  and can break at any time.
 */
module ConfigPush {
  import opened Basics

  /** A configuration text: whether it validates, the version it carries, its checksum. */
  datatype Text = Text(body: nat, valid: bool, version: nat, cksum: nat)

  datatype Conf = Conf(version: int, text: Text, md5: nat)

  datatype Request = HeartBeat(version: nat, cksum: nat) | GetLatest(version: nat)
  datatype Reply = HeartBeatReply(version: nat, md5: nat, push: bool) | LatestReply(version: nat, text: Text)

  datatype Master = Master(conf: Conf, push: bool)

  /** `out` and `back` are the messages on the connection, oldest first; `stuck` records that a
      download request was refused by the full send queue of this connection. */
  datatype Agent = Agent(version: nat, cksum: nat, up: bool, downloading: bool, stuck: bool,
                         out: seq<Request>, back: seq<Reply>)

  /** An `int` put into a `uint32` message field. */
  function U32(v: int): (n: nat)
    ensures n < TWO32
  {
    v % TWO32
  }

  // ---------------------------------------------------------------- agent steps

  /** The length from which on `AddPacket` refuses packets. */
  const SEND_LIMIT := 1024

  /** `AddPacket`; `room` is false when the queue is at its limit. */
  function Send(a: Agent, m: Request, room: bool): Agent {
    if room then a.(out := a.out + [m]) else a
  }

  /** `TimerNotify`; `connects` is the outcome of `Build` when the worker is down. */
  function OnTimer(a: Agent, connects: bool, room: bool): Agent {
    if !a.up && !connects then a
    else Send(a.(up := true), HeartBeat(a.version, a.cksum), room)
  }

  /** `Exit` */
  function OnDrop(a: Agent): Agent {
    a.(up := false, downloading := false, stuck := false, out := [], back := [])
  }

  /** The agent after `exit(2)` and a restart with the new configuration file. */
  function Restart(t: Text): Agent {
    Agent(U32(t.version), t.cksum, false, false, false, [], [])
  }

  predicate Installs(m: Reply) { m.LatestReply? && m.text.valid }

  /** Whether a heartbeat reply starts a download. */
  predicate Wants(a: Agent, m: Reply) {
    m.HeartBeatReply? && m.push && m.version > a.version && m.md5 != a.cksum && !a.downloading
  }

  /** `HandleMessage` */
  function OnReply(a: Agent, m: Reply, room: bool): Agent {
    match m
    case HeartBeatReply(v, md5, push) =>
      if Wants(a, m) then Send(a, GetLatest(v), room).(downloading := true, stuck := a.stuck || !room)
      else a
    case LatestReply(v, t) =>
      if t.valid then Restart(t) else a.(downloading := false)
  }

  // ---------------------------------------------------------------- master steps

  function SetConfigure(m: Master, c: Conf): Master { m.(conf := c) }

  /** `MasterWorker::HandleMessage` for a heartbeat fetches the database first. */
  function AfterFetch(m: Master, r: Request, fetched: Option<Conf>): Master {
    if r.HeartBeat? && fetched.Some? then SetConfigure(m, fetched.value) else m
  }

  function Answer(m: Master, r: Request): Reply {
    match r
    case HeartBeat(_, _) => HeartBeatReply(U32(m.conf.version), m.conf.md5, m.push)
    case GetLatest(_) => LatestReply(U32(m.conf.version), m.conf.text)
  }

  // ---------------------------------------------------------------- the system

  datatype Install = Install(agent: nat, from: nat, text: Text)

  /** `held` are all configurations the master ever held; `installs` all installations. */
  datatype State = State(master: Master, agents: map<nat, Agent>, held: set<Conf>, installs: seq<Install>)

  datatype Event =
    | Update(conf: Conf)
    | Push(on: bool)
    | Timer(a: nat, connects: bool, room: bool)
    | Drop(a: nat)
    | MasterTakes(a: nat, fetched: Option<Conf>)
    | AgentTakes(a: nat, room: bool)

  /** A refusal takes a queue at its limit, and every packet queued is still on the connection. */
  predicate MayRefuse(x: Agent) { |x.out| >= SEND_LIMIT }

  predicate Enabled(s: State, e: Event) {
    match e
    case Update(_) => true
    case Push(_) => true
    case Timer(a, _, room) => a in s.agents && (room || MayRefuse(s.agents[a]))
    case Drop(a) => a in s.agents
    case MasterTakes(a, _) => a in s.agents && s.agents[a].out != []
    case AgentTakes(a, room) => a in s.agents && s.agents[a].back != [] && (room || MayRefuse(s.agents[a]))
  }

  function Step(s: State, e: Event): State
    requires Enabled(s, e)
  {
    match e
    case Update(c) => s.(master := SetConfigure(s.master, c), held := s.held + {c})
    case Push(on) => s.(master := s.master.(push := on))
    case Timer(a, connects, room) => s.(agents := s.agents[a := OnTimer(s.agents[a], connects, room)])
    case Drop(a) => s.(agents := s.agents[a := OnDrop(s.agents[a])])
    case MasterTakes(a, f) =>
      var r := s.agents[a].out[0];
      var m := AfterFetch(s.master, r, f);
      State(m, s.agents[a := s.agents[a].(out := s.agents[a].out[1..], back := s.agents[a].back + [Answer(m, r)])],
            s.held + {m.conf}, s.installs)
    case AgentTakes(a, room) =>
      var x := s.agents[a];
      var m := x.back[0];
      var s' := s.(agents := s.agents[a := OnReply(x.(back := x.back[1..]), m, room)]);
      if Installs(m) then s'.(installs := s.installs + [Install(a, x.version, m.text)]) else s'
  }

  predicate LegalRun(s: State, es: seq<Event>)
    decreases |es|
  {
    es == [] || (Enabled(s, es[0]) && LegalRun(Step(s, es[0]), es[1..]))
  }

  function Run(s: State, es: seq<Event>): State
    requires LegalRun(s, es)
    decreases |es|
  {
    if es == [] then s else Run(Step(s, es[0]), es[1..])
  }

  /** Versions never decrease, fit 31 bits, and the text carries its own version. */
  predicate Newer(m: Master, c: Conf) {
    m.conf.version <= c.version && 0 <= c.version < TWO31 && c.text.version == c.version
  }

  predicate Orderly(s: State, e: Event) {
    match e
    case Update(c) => Newer(s.master, c)
    case MasterTakes(_, f) => f.Some? ==> Newer(s.master, f.value)
    case _ => true
  }

  /** Every configuration the master is given in the run is in order. */
  predicate OrderlyRun(s: State, es: seq<Event>)
    requires LegalRun(s, es)
    decreases |es|
  {
    es == [] || (Orderly(s, es[0]) && OrderlyRun(Step(s, es[0]), es[1..]))
  }

  // ---------------------------------------------------------------- downloads

  function Gets(out: seq<Request>): nat {
    if out == [] then 0 else (if out[0].GetLatest? then 1 else 0) + Gets(out[1..])
  }

  function Latests(back: seq<Reply>): nat {
    if back == [] then 0 else (if back[0].LatestReply? then 1 else 0) + Latests(back[1..])
  }

  /** Download requests and answers on the connection. */
  function Outstanding(a: Agent): nat { Gets(a.out) + Latests(a.back) }

  /** At most one download is outstanding, and the flag says when, unless one got stuck. */
  predicate DownloadOk(a: Agent) {
    && Outstanding(a) <= 1
    && (a.downloading <==> Outstanding(a) == 1 || a.stuck)
    && (a.stuck ==> Outstanding(a) == 0)
    && (!a.up ==> a.out == [] && a.back == [] && !a.downloading && !a.stuck)
  }

  lemma {:induction false} GetsAppend(out: seq<Request>, r: Request)
    ensures Gets(out + [r]) == Gets(out) + (if r.GetLatest? then 1 else 0)
  {
    if out == [] {
      assert out + [r] == [r] && [r][1..] == [];
    } else {
      assert (out + [r])[1..] == out[1..] + [r];
      GetsAppend(out[1..], r);
    }
  }

  lemma {:induction false} LatestsAppend(back: seq<Reply>, r: Reply)
    ensures Latests(back + [r]) == Latests(back) + (if r.LatestReply? then 1 else 0)
  {
    if back == [] {
      assert back + [r] == [r] && [r][1..] == [];
    } else {
      assert (back + [r])[1..] == back[1..] + [r];
      LatestsAppend(back[1..], r);
    }
  }

  lemma TimerKeepsDownload(a: Agent, connects: bool, room: bool)
    requires DownloadOk(a)
    ensures DownloadOk(OnTimer(a, connects, room))
  {
    GetsAppend(a.out, HeartBeat(a.version, a.cksum));
  }

  lemma AnswerKeepsDownload(a: Agent, m: Master)
    requires DownloadOk(a) && a.out != []
    ensures DownloadOk(a.(out := a.out[1..], back := a.back + [Answer(m, a.out[0])]))
  {
    LatestsAppend(a.back, Answer(m, a.out[0]));
  }

  lemma ReplyKeepsDownload(a: Agent, room: bool)
    requires DownloadOk(a) && a.back != []
    ensures DownloadOk(OnReply(a.(back := a.back[1..]), a.back[0], room))
  {
    var r := a.back[0];
    if r.HeartBeatReply? {
      GetsAppend(a.out, GetLatest(r.version));
    }
  }

  ghost predicate DownloadsOk(s: State) {
    forall a :: a in s.agents ==> DownloadOk(s.agents[a])
  }

  /** No step needs anything of the versions for this. */
  lemma StepKeepsDownloads(s: State, e: Event)
    requires DownloadsOk(s) && Enabled(s, e)
    ensures DownloadsOk(Step(s, e))
  {
    hide OnReply, OnTimer;
    match e
    case Update(c) =>
    case Push(on) =>
    case Timer(a, connects, room) => TimerKeepsDownload(s.agents[a], connects, room);
    case Drop(a) =>
    case MasterTakes(a, f) => AnswerKeepsDownload(s.agents[a], AfterFetch(s.master, s.agents[a].out[0], f));
    case AgentTakes(a, room) => ReplyKeepsDownload(s.agents[a], room);
  }

  lemma {:induction false} RunKeepsDownloads(s: State, es: seq<Event>)
    requires DownloadsOk(s) && LegalRun(s, es)
    ensures DownloadsOk(Run(s, es))
    decreases |es|
  {
    hide DownloadsOk, Step;
    if es != [] {
      StepKeepsDownloads(s, es[0]);
      RunKeepsDownloads(Step(s, es[0]), es[1..]);
    }
  }

  /** A request that was refused blocks the agent: without a drop of its connection no step of
      the system ever starts a download or an installation there. */
  lemma StuckStep(s: State, e: Event, a: nat)
    requires DownloadsOk(s) && Enabled(s, e) && e != Drop(a) && a in s.agents && s.agents[a].stuck
    ensures a in Step(s, e).agents && Step(s, e).agents[a].stuck
    ensures !(e.AgentTakes? && e.a == a && Installs(s.agents[a].back[0]))
  {
    assert DownloadOk(s.agents[a]);
  }

  lemma {:induction false} StuckUntilDrop(s: State, es: seq<Event>, a: nat)
    requires DownloadsOk(s) && LegalRun(s, es) && Drop(a) !in es && a in s.agents && s.agents[a].stuck
    ensures a in Run(s, es).agents && Run(s, es).agents[a].stuck
    decreases |es|
  {
    hide DownloadsOk, Step;
    if es != [] {
      StepKeepsDownloads(s, es[0]);
      StuckStep(s, es[0], a);
      StuckUntilDrop(Step(s, es[0]), es[1..], a);
    }
  }

  // ---------------------------------------------------------------- versions

  /** What is on the connection is not newer than the master, and what is being downloaded is
      newer than the agent. */
  ghost predicate ConnectionOk(m: Master, held: set<Conf>, a: Agent) {
    && (forall r :: r in a.out && r.GetLatest? ==> a.version < m.conf.version)
    && (forall r :: r in a.back && r.HeartBeatReply? ==> r.version <= m.conf.version)
    && (forall r :: r in a.back && r.LatestReply? ==>
          FromMaster(held, r.text) && a.version < r.text.version <= m.conf.version)
  }

  /** The text was the master's together with the version it carries. */
  ghost predicate FromMaster(held: set<Conf>, t: Text) {
    exists c :: c in held && c.text == t && c.version == t.version
  }

  ghost predicate InstallOk(held: set<Conf>, i: Install) {
    i.text.valid && FromMaster(held, i.text) && i.from < i.text.version
  }

  ghost predicate MasterOk(s: State) {
    var c := s.master.conf;
    c in s.held && 0 <= c.version < TWO31 && c.text.version == c.version
  }

  ghost predicate Inv(s: State) {
    && MasterOk(s)
    && (forall a :: a in s.agents ==> ConnectionOk(s.master, s.held, s.agents[a]))
    && (forall i :: 0 <= i < |s.installs| ==> InstallOk(s.held, s.installs[i]))
  }

  /** The master moving on keeps every connection in order. */
  lemma MasterMoves(m: Master, m': Master, held: set<Conf>, held': set<Conf>, a: Agent)
    requires ConnectionOk(m, held, a) && m.conf.version <= m'.conf.version && held <= held'
    ensures ConnectionOk(m', held', a)
  {
    forall r | r in a.back && r.LatestReply? ensures FromMaster(held', r.text) {
      HeldGrows(held, held', r.text);
    }
  }

  lemma HeldGrows(held: set<Conf>, held': set<Conf>, t: Text)
    requires FromMaster(held, t) && held <= held'
    ensures FromMaster(held', t)
  {
    var c :| c in held && c.text == t && c.version == t.version;
    assert c in held';
  }

  lemma TimerKeeps(m: Master, held: set<Conf>, a: Agent, connects: bool, room: bool)
    requires ConnectionOk(m, held, a)
    ensures ConnectionOk(m, held, OnTimer(a, connects, room))
  {
    assert forall r :: r in a.out + [HeartBeat(a.version, a.cksum)] && r.GetLatest? ==> r in a.out;
  }

  lemma MasterAnswers(m: Master, held: set<Conf>, a: Agent)
    requires ConnectionOk(m, held, a) && a.out != []
    requires m.conf in held && 0 <= m.conf.version < TWO31 && m.conf.text.version == m.conf.version
    ensures ConnectionOk(m, held, a.(out := a.out[1..], back := a.back + [Answer(m, a.out[0])]))
  {
    hide FromMaster;
    var r := a.out[0];
    var back := a.back + [Answer(m, r)];
    assert r in a.out;
    assert FromMaster(held, m.conf.text) by { Current(m, held); }
    assert forall x :: x in back ==> x in a.back || x == Answer(m, r);
  }

  lemma Current(m: Master, held: set<Conf>)
    requires m.conf in held && m.conf.text.version == m.conf.version
    ensures FromMaster(held, m.conf.text)
  {
  }

  lemma AgentHandles(m: Master, held: set<Conf>, a: Agent, room: bool)
    requires ConnectionOk(m, held, a) && a.back != [] && 0 <= m.conf.version < TWO31
    ensures ConnectionOk(m, held, OnReply(a.(back := a.back[1..]), a.back[0], room))
    ensures Installs(a.back[0]) ==> InstallOk(held, Install(0, a.version, a.back[0].text))
  {
    hide FromMaster;
    var r, x := a.back[0], a.(back := a.back[1..]);
    assert r in a.back;
    if Wants(x, r) {
      assert forall q :: q in a.out + [GetLatest(r.version)] ==> q in a.out || q == GetLatest(r.version);
    }
  }

  // ---------------------------------------------------------------- preservation

  lemma AgentStepKeeps(s: State, a: nat, x: Agent)
    requires Inv(s) && ConnectionOk(s.master, s.held, x)
    ensures Inv(s.(agents := s.agents[a := x]))
  {
  }

  lemma MasterStepKeeps(s: State, m: Master)
    requires Inv(s) && s.master.conf.version <= m.conf.version < TWO31 && m.conf.text.version == m.conf.version
    ensures Inv(s.(master := m, held := s.held + {m.conf}))
  {
    hide FromMaster, ConnectionOk;
    var held := s.held + {m.conf};
    forall a | a in s.agents ensures ConnectionOk(m, held, s.agents[a]) {
      MasterMoves(s.master, m, s.held, held, s.agents[a]);
    }
    forall i | 0 <= i < |s.installs| ensures InstallOk(held, s.installs[i]) {
      assert InstallOk(s.held, s.installs[i]);
      HeldGrows(s.held, held, s.installs[i].text);
    }
  }

  lemma StepKeepsInv(s: State, e: Event)
    requires Inv(s) && Enabled(s, e) && Orderly(s, e)
    ensures Inv(Step(s, e))
  {
    hide FromMaster, ConnectionOk, OnReply, OnTimer;
    match e
    case Update(c) => MasterStepKeeps(s, SetConfigure(s.master, c));
    case Push(on) =>
      MasterStepKeeps(s, s.master.(push := on));
      assert s.held + {s.master.conf} == s.held;
    case Timer(a, connects, room) =>
      TimerKeeps(s.master, s.held, s.agents[a], connects, room);
      AgentStepKeeps(s, a, OnTimer(s.agents[a], connects, room));
    case Drop(a) =>
      DropKeeps(s.master, s.held, s.agents[a]);
      AgentStepKeeps(s, a, OnDrop(s.agents[a]));
    case MasterTakes(a, f) =>
      var m := AfterFetch(s.master, s.agents[a].out[0], f);
      MasterStepKeeps(s, m);
      var s1 := s.(master := m, held := s.held + {m.conf});
      MasterAnswers(m, s1.held, s.agents[a]);
      var x := s.agents[a];
      AgentStepKeeps(s1, a, x.(out := x.out[1..], back := x.back + [Answer(m, x.out[0])]));
    case AgentTakes(a, room) =>
      var x := s.agents[a];
      AgentHandles(s.master, s.held, x, room);
      AgentStepKeeps(s, a, OnReply(x.(back := x.back[1..]), x.back[0], room));
  }

  lemma DropKeeps(m: Master, held: set<Conf>, a: Agent)
    ensures ConnectionOk(m, held, OnDrop(a))
  {
  }

  lemma {:induction false} RunKeepsInv(s: State, es: seq<Event>)
    requires Inv(s) && LegalRun(s, es) && OrderlyRun(s, es)
    ensures Inv(Run(s, es))
    decreases |es|
  {
    hide Inv, Step;
    if es != [] {
      StepKeepsInv(s, es[0]);
      RunKeepsInv(Step(s, es[0]), es[1..]);
    }
  }

  // ---------------------------------------------------------------- theorems

  /** Agents not yet connected. */
  predicate Idle(s: State) {
    forall a :: a in s.agents ==> var x := s.agents[a]; x == Agent(x.version, x.cksum, false, false, false, [], [])
  }

  /** In every run, whatever the master holds and whatever versions it is given: each agent has
      at most one download outstanding, and its flag says exactly when one is, unless the full
      send queue refused one. */
  lemma OneDownload(s: State, es: seq<Event>, a: nat)
    requires Idle(s) && LegalRun(s, es) && a in Run(s, es).agents
    ensures var x := Run(s, es).agents[a];
      && Outstanding(x) <= 1
      && (!x.stuck ==> (x.downloading <==> Outstanding(x) == 1))
      && (x.stuck ==> x.downloading && Outstanding(x) == 0)
  {
    IdleDownloads(s);
    RunKeepsDownloads(s, es);
  }

  lemma IdleDownloads(s: State)
    requires Idle(s)
    ensures DownloadsOk(s)
  {
    forall a | a in s.agents ensures DownloadOk(s.agents[a]) {
      var x := s.agents[a];
      assert x == Agent(x.version, x.cksum, false, false, false, [], []);
    }
  }

  /** Fewer messages than the limit are on every connection, now and all along a run. */
  predicate ShortQueues(s: State) { forall a :: a in s.agents ==> |s.agents[a].out| < 1024 }

  predicate ShortRun(s: State, es: seq<Event>)
    requires LegalRun(s, es)
    decreases |es|
  {
    ShortQueues(s) && (es == [] || ShortRun(Step(s, es[0]), es[1..]))
  }

  predicate NoneStuck(s: State) { forall a :: a in s.agents ==> !s.agents[a].stuck }

  lemma ShortStep(s: State, e: Event)
    requires NoneStuck(s) && ShortQueues(s) && Enabled(s, e)
    ensures NoneStuck(Step(s, e))
  {
  }

  lemma {:induction false} ShortRunNeverSticks(s: State, es: seq<Event>)
    requires NoneStuck(s) && LegalRun(s, es) && ShortRun(s, es)
    ensures NoneStuck(Run(s, es))
    decreases |es|
  {
    hide NoneStuck, ShortQueues, Step;
    if es != [] {
      ShortStep(s, es[0]);
      ShortRunNeverSticks(Step(s, es[0]), es[1..]);
    }
  }

  /** In every run with fewer than 1024 messages on each connection the flag is exact. */
  lemma FlagExact(s: State, es: seq<Event>, a: nat)
    requires Idle(s) && LegalRun(s, es) && ShortRun(s, es) && a in Run(s, es).agents
    ensures var x := Run(s, es).agents[a]; !x.stuck && (x.downloading <==> Outstanding(x) == 1)
  {
    assert NoneStuck(s) by {
      forall b | b in s.agents ensures !s.agents[b].stuck {
        var x := s.agents[b];
        assert x == Agent(x.version, x.cksum, false, false, false, [], []);
      }
    }
    ShortRunNeverSticks(s, es);
    OneDownload(s, es, a);
  }

  // ---------------------------------------------------------------- what is said and when

  /** A heartbeat carries the version and checksum the agent runs with; a worker that stays down
      sends nothing. */
  lemma HeartbeatReports(a: Agent, connects: bool)
    ensures var a' := OnTimer(a, connects, true);
      if a.up || connects then a' == a.(up := true, out := a.out + [HeartBeat(a.version, a.cksum)]) else a' == a
  {
  }

  /** The master looks into the database at heartbeats only, takes version, text and checksum from
      there together, and answers with what it then holds. */
  lemma MasterSays(m: Master, c: Conf, v: nat, cksum: nat)
    ensures AfterFetch(m, GetLatest(v), Some(c)) == m && AfterFetch(m, HeartBeat(v, cksum), None) == m
    ensures AfterFetch(m, HeartBeat(v, cksum), Some(c)) == Master(c, m.push)
    ensures 0 <= c.version < 0x1_0000_0000 ==>
      && Answer(Master(c, m.push), HeartBeat(v, cksum)) == HeartBeatReply(c.version, c.md5, m.push)
      && Answer(Master(c, m.push), GetLatest(v)) == LatestReply(c.version, c.text)
  {
  }

  // ---------------------------------------------------------------- when nothing is to be pushed

  /** On the fields of the reply: a download is asked for exactly when push is on, the version is
      newer, the checksum differs and no download is under way, and the request goes out exactly
      when there is room. */
  lemma AsksExactly(a: Agent, v: nat, md5: nat, push: bool, room: bool)
    ensures var a' := OnReply(a, HeartBeatReply(v, md5, push), room);
      if push && v > a.version && md5 != a.cksum && !a.downloading then
        a'.downloading && a'.out == (if room then a.out + [GetLatest(v)] else a.out)
      else a' == a
  {
  }

  /** Push is off, and no connection carries anything of a time when it was on. */
  ghost predicate Quiet(s: State) {
    && !s.master.push
    && (forall a, r :: a in s.agents && r in s.agents[a].out ==> r.HeartBeat?)
    && (forall a, r :: a in s.agents && r in s.agents[a].back ==> r.HeartBeatReply? && !r.push)
  }

  lemma QuietStep(s: State, e: Event)
    requires Quiet(s) && Enabled(s, e) && e != Push(true)
    ensures Quiet(Step(s, e)) && Step(s, e).installs == s.installs
  {
    match e
    case Update(c) =>
    case Push(on) =>
    case Timer(a, connects, room) => QuietTimer(s.agents[a], connects, room);
    case Drop(a) =>
    case MasterTakes(a, f) =>
      var x := s.agents[a];
      assert x.out[0] in x.out;
    case AgentTakes(a, room) =>
      var x := s.agents[a];
      assert x.back[0] in x.back;
      assert OnReply(x.(back := x.back[1..]), x.back[0], room) == x.(back := x.back[1..]);
  }

  lemma QuietTimer(x: Agent, connects: bool, room: bool)
    ensures forall r :: r in OnTimer(x, connects, room).out && r.GetLatest? ==> r in x.out
    ensures OnTimer(x, connects, room).back == x.back
  {
  }

  /** While push stays off no agent has a download outstanding and nothing is installed. */
  lemma {:induction false} QuietRun(s: State, es: seq<Event>)
    requires Quiet(s) && LegalRun(s, es) && Push(true) !in es
    ensures Quiet(Run(s, es)) && Run(s, es).installs == s.installs
    ensures forall a :: a in Run(s, es).agents ==> Outstanding(Run(s, es).agents[a]) == 0
    decreases |es|
  {
    hide Quiet, Step, Enabled, Outstanding;
    if es == [] {
      forall a | a in s.agents ensures Outstanding(s.agents[a]) == 0 { QuietOutstanding(s, a); }
    } else {
      assert es[0] in es && forall e :: e in es[1..] ==> e in es;
      QuietStep(s, es[0]);
      QuietRun(Step(s, es[0]), es[1..]);
    }
  }

  lemma QuietOutstanding(s: State, a: nat)
    requires Quiet(s) && a in s.agents
    ensures Outstanding(s.agents[a]) == 0
  {
    NoGets(s.agents[a].out);
    NoLatests(s.agents[a].back);
  }

  lemma {:induction false} NoGets(out: seq<Request>)
    requires forall r :: r in out ==> r.HeartBeat?
    ensures Gets(out) == 0
  {
    if out != [] {
      assert out[0] in out && forall r :: r in out[1..] ==> r in out;
      NoGets(out[1..]);
    }
  }

  lemma {:induction false} NoLatests(back: seq<Reply>)
    requires forall r :: r in back ==> r.HeartBeatReply?
    ensures Latests(back) == 0
  {
    if back != [] {
      assert back[0] in back && forall r :: r in back[1..] ==> r in back;
      NoLatests(back[1..]);
    }
  }

  /** The master announces the checksum that agent `a` has, and has announced no other to it. */
  ghost predicate SameText(s: State, a: nat) {
    && a in s.agents && s.master.conf.md5 == s.agents[a].cksum
    && (forall r :: r in s.agents[a].out ==> r.HeartBeat?)
    && (forall r :: r in s.agents[a].back ==> r.HeartBeatReply? && r.md5 == s.agents[a].cksum)
  }

  /** No event gives the master a configuration with another checksum. */
  predicate Keeps(e: Event, md5: nat) {
    match e
    case Update(c) => c.md5 == md5
    case MasterTakes(_, f) => f.Some? ==> f.value.md5 == md5
    case _ => true
  }

  lemma SameTextStep(s: State, e: Event, a: nat)
    requires SameText(s, a) && Enabled(s, e) && Keeps(e, s.agents[a].cksum)
    ensures SameText(Step(s, e), a) && Step(s, e).agents[a].cksum == s.agents[a].cksum
  {
    match e
    case Update(c) =>
    case Push(on) =>
    case Timer(b, connects, room) => QuietTimer(s.agents[b], connects, room);
    case Drop(b) =>
    case MasterTakes(b, f) =>
      var x := s.agents[b];
      if b == a {
        assert x.out[0] in x.out;
      }
    case AgentTakes(b, room) =>
      var x := s.agents[b];
      if b == a {
        assert x.back[0] in x.back;
        assert OnReply(x.(back := x.back[1..]), x.back[0], room) == x.(back := x.back[1..]);
      }
  }

  /** An agent never asks for a configuration with the checksum it has, whatever its version. */
  lemma {:induction false} SameTextRun(s: State, es: seq<Event>, a: nat)
    requires SameText(s, a) && LegalRun(s, es) && forall e :: e in es ==> Keeps(e, s.agents[a].cksum)
    ensures a in Run(s, es).agents && Outstanding(Run(s, es).agents[a]) == 0
    ensures Run(s, es).agents[a].cksum == s.agents[a].cksum
    decreases |es|
  {
    hide Step, Enabled, Outstanding, Keeps;
    if es == [] {
      assert Outstanding(s.agents[a]) == 0 by { SameTextOutstanding(s, a); }
    } else {
      assert es[0] in es && forall e :: e in es[1..] ==> e in es;
      SameTextStep(s, es[0], a);
      SameTextRun(Step(s, es[0]), es[1..], a);
    }
  }

  lemma SameTextOutstanding(s: State, a: nat)
    requires SameText(s, a)
    ensures Outstanding(s.agents[a]) == 0
  {
    NoGets(s.agents[a].out);
    NoLatests(s.agents[a].back);
  }

  /** Agents not yet connected, and a master that holds `c`. */
  predicate Starts(s: State, c: Conf) {
    s.master.conf == c && s.held == {c} && s.installs == [] && Idle(s)
  }

  /** A master that has its configuration. */
  predicate Configured(c: Conf) { 0 <= c.version < TWO31 && c.text.version == c.version }

  /** A master whose first fetch failed holds what its constructor left. */
  predicate Unconfigured(c: Conf) { c.version == -1 && c.md5 == 0 }

  // ---------------------------------------------------------------- runs of one agent

  /** Some orderly run leads from one state to the other. */
  ghost predicate Reaches(s: State, s': State) {
    exists es: seq<Event> :: LegalRun(s, es) && OrderlyRun(s, es) && Run(s, es) == s'
  }

  lemma ReachesSelf(s: State)
    ensures Reaches(s, s)
  {
    assert LegalRun(s, []) && OrderlyRun(s, []) && Run(s, []) == s;
  }

  lemma ReachesStep(s: State, e: Event, s': State)
    requires Enabled(s, e) && Orderly(s, e) && Reaches(Step(s, e), s')
    ensures Reaches(s, s')
  {
    hide Step, Enabled, Orderly;
    var es :| LegalRun(Step(s, e), es) && OrderlyRun(Step(s, e), es) && Run(Step(s, e), es) == s';
    assert ([e] + es)[1..] == es && ([e] + es)[0] == e;
    assert LegalRun(s, [e] + es) && OrderlyRun(s, [e] + es) && Run(s, [e] + es) == s';
  }

  /** A master with one agent. */
  function Solo(m: Master, x: Agent, held: set<Conf>, installs: seq<Install>): State {
    State(m, map[0 := x], held, installs)
  }

  lemma SoloPush(m: Master, x: Agent, held: set<Conf>, installs: seq<Install>, s': State)
    requires Reaches(Solo(m.(push := true), x, held, installs), s')
    ensures Reaches(Solo(m, x, held, installs), s')
  {
    hide Reaches;
    ReachesStep(Solo(m, x, held, installs), Push(true), s');
  }

  lemma SoloUpdate(m: Master, x: Agent, held: set<Conf>, installs: seq<Install>, c: Conf, s': State)
    requires Newer(m, c) && Reaches(Solo(m.(conf := c), x, held + {c}, installs), s')
    ensures Reaches(Solo(m, x, held, installs), s')
  {
    hide Reaches;
    ReachesStep(Solo(m, x, held, installs), Update(c), s');
  }

  lemma SoloTimer(m: Master, x: Agent, held: set<Conf>, installs: seq<Install>, s': State)
    requires Reaches(Solo(m, OnTimer(x, true, true), held, installs), s')
    ensures Reaches(Solo(m, x, held, installs), s')
  {
    hide Reaches, OnTimer;
    var s := Solo(m, x, held, installs);
    assert Step(s, Timer(0, true, true)).agents == map[0 := OnTimer(x, true, true)];
    ReachesStep(s, Timer(0, true, true), s');
  }

  lemma SoloMaster(m: Master, x: Agent, held: set<Conf>, installs: seq<Install>, s': State)
    requires x.out != [] && m.conf in held
    requires var y := x.(out := x.out[1..], back := x.back + [Answer(m, x.out[0])]);
      Reaches(Solo(m, y, held, installs), s')
    ensures Reaches(Solo(m, x, held, installs), s')
  {
    hide Reaches, Answer;
    var s := Solo(m, x, held, installs);
    var y := x.(out := x.out[1..], back := x.back + [Answer(m, x.out[0])]);
    assert Step(s, MasterTakes(0, None)).agents == map[0 := y];
    assert held + {m.conf} == held;
    ReachesStep(s, MasterTakes(0, None), s');
  }

  lemma SoloAgent(m: Master, x: Agent, held: set<Conf>, installs: seq<Install>, room: bool, s': State)
    requires x.back != [] && (room || MayRefuse(x))
    requires var y := OnReply(x.(back := x.back[1..]), x.back[0], room);
      var done := if Installs(x.back[0]) then installs + [Install(0, x.version, x.back[0].text)] else installs;
      Reaches(Solo(m, y, held, done), s')
    ensures Reaches(Solo(m, x, held, installs), s')
  {
    hide Reaches, OnReply;
    var s := Solo(m, x, held, installs);
    var y := OnReply(x.(back := x.back[1..]), x.back[0], room);
    assert Step(s, AgentTakes(0, room)).agents == map[0 := y];
    ReachesStep(s, AgentTakes(0, room), s');
  }

  function Beats(x: Agent, k: nat): seq<Request> { seq(k, _ => HeartBeat(x.version, x.cksum)) }

  /** Heartbeats that the master does not take pile up. */
  lemma {:induction false} PileUp(m: Master, x: Agent, held: set<Conf>, installs: seq<Install>, k: nat, s': State)
    requires x.up && Reaches(Solo(m, x.(out := x.out + Beats(x, k)), held, installs), s')
    ensures Reaches(Solo(m, x, held, installs), s')
    decreases k
  {
    hide Reaches;
    if k == 0 {
      assert x.out + Beats(x, 0) == x.out;
    } else {
      var y := OnTimer(x, true, true);
      assert y.out + Beats(y, k - 1) == x.out + Beats(x, k);
      PileUp(m, y, held, installs, k - 1, s');
      SoloTimer(m, x, held, installs, s');
    }
  }

  /** A heartbeat answered with something newer while 1024 more wait for a master that is slow to
      read, and so no room for the request: the flag is up, nothing is outstanding, and
      `StuckUntilDrop` says for how long. */
  lemma RefusedRequestSticks(c: Conf, n: nat, cksum: nat) returns (s: State, s': State)
    requires Configured(c) && n < c.version && cksum != c.md5
    ensures Starts(s, c) && !s.master.push && Reaches(s, s') && 0 in s'.agents
    ensures var x := s'.agents[0]; x.version == n && x.stuck && x.downloading && Outstanding(x) == 0
  {
    hide Reaches;
    var held, m := {c}, Master(c, true);
    var x0 := Agent(n, cksum, false, false, false, [], []);
    var x1 := x0.(up := true, out := [HeartBeat(n, cksum)]);
    var x2 := x1.(out := [], back := [HeartBeatReply(c.version, c.md5, true)]);
    var x3 := x2.(out := Beats(x2, SEND_LIMIT));
    var x4 := x3.(back := [], downloading := true, stuck := true);
    s, s' := Solo(Master(c, false), x0, held, []), Solo(m, x4, held, []);
    ReachesSelf(s');
    assert x3.back[1..] == [] && OnReply(x3.(back := []), x3.back[0], false) == x4;
    SoloAgent(m, x3, held, [], false, s');
    assert x2.out + Beats(x2, SEND_LIMIT) == Beats(x2, SEND_LIMIT);
    PileUp(m, x2, held, [], SEND_LIMIT, s');
    assert x1.out[1..] == [] && x1.back + [Answer(m, x1.out[0])] == x2.back;
    SoloMaster(m, x1, held, [], s');
    assert OnTimer(x0, true, true) == x1;
    SoloTimer(m, x0, held, [], s');
    SoloPush(Master(c, false), x0, held, [], s');
    NothingOutstanding(s, s');
  }

  /** With push on, heartbeats bring every agent that is behind, and has another text, to the
      valid configuration of the master: the text is installed and the agent restarts with it. */
  lemma ConfigurationArrives(c: Conf, n: nat, cksum: nat) returns (s: State, s': State)
    requires Configured(c) && c.text.valid && n < c.version && cksum != c.md5
    ensures Starts(s, c) && s.agents == map[0 := Agent(n, cksum, false, false, false, [], [])] && Reaches(s, s')
    ensures s'.installs == [Install(0, n, c.text)]
    ensures s'.agents == map[0 := Agent(c.version, c.text.cksum, false, false, false, [], [])]
  {
    hide Reaches;
    var held, m, i := {c}, Master(c, true), Install(0, n, c.text);
    var x0 := Agent(n, cksum, false, false, false, [], []);
    var x1 := x0.(up := true, out := [HeartBeat(n, cksum)]);
    var x2 := x1.(out := [], back := [HeartBeatReply(c.version, c.md5, true)]);
    var x3 := x1.(out := [GetLatest(c.version)], downloading := true);
    var x4 := x3.(out := [], back := [LatestReply(c.version, c.text)]);
    s, s' := Solo(Master(c, false), x0, held, []), Solo(m, Restart(c.text), held, [i]);
    ReachesSelf(s');
    assert [] + [i] == [i];
    SoloAgent(m, x4, held, [], true, s');
    assert x3.out[1..] == [] && x3.back + [LatestReply(c.version, c.text)] == x4.back;
    SoloMaster(m, x3, held, [], s');
    assert x2.back[1..] == [] && [] + [GetLatest(c.version)] == x3.out;
    SoloAgent(m, x2, held, [], true, s');
    assert x1.out[1..] == [] && x1.back + [HeartBeatReply(c.version, c.md5, true)] == x2.back;
    SoloMaster(m, x1, held, [], s');
    assert OnTimer(x0, true, true) == x1;
    SoloTimer(m, x0, held, [], s');
    SoloPush(Master(c, false), x0, held, [], s');
  }

  lemma NothingOutstanding(s: State, s': State)
    requires Idle(s) && Reaches(s, s') && 0 in s'.agents && s'.agents[0].stuck
    ensures Outstanding(s'.agents[0]) == 0
  {
    var es :| LegalRun(s, es) && OrderlyRun(s, es) && Run(s, es) == s';
    OneDownload(s, es, 0);
  }

  lemma StartInv(s: State, c: Conf)
    requires Starts(s, c) && Configured(c)
    ensures Inv(s)
  {
    forall a | a in s.agents ensures ConnectionOk(s.master, s.held, s.agents[a]) {
      var x := s.agents[a];
      assert x == Agent(x.version, x.cksum, false, false, false, [], []);
    }
  }

  /** In every orderly run from a configured master: every configuration installed passed
      validation, was held by the master with the version it carries, and is newer than the one
      it replaces. */
  lemma InstallsAreNewer(s: State, c: Conf, es: seq<Event>, i: nat)
    requires Starts(s, c) && Configured(c) && LegalRun(s, es) && OrderlyRun(s, es) && i < |Run(s, es).installs|
    ensures var x := Run(s, es).installs[i];
      && x.text.valid && x.from < x.text.version
      && exists c' :: c' in Run(s, es).held && c'.text == x.text && c'.version == x.text.version
  {
    StartInv(s, c);
    RunKeepsInv(s, es);
    assert InstallOk(Run(s, es).held, Run(s, es).installs[i]);
  }

  /** No orderly run from a master that holds `c` installs anything but newer configurations. */
  ghost predicate OnlyNewer(c: Conf) {
    forall s: State, es: seq<Event>, i: nat ::
      Starts(s, c) && LegalRun(s, es) && OrderlyRun(s, es) && i < |Run(s, es).installs| ==>
        Run(s, es).installs[i].from < Run(s, es).installs[i].text.version
  }

  /** A master starts configured or with what its constructor left.  Installations are newer in
      all its orderly runs if and only if it starts configured. */
  lemma OnlyNewerExactly(c: Conf)
    requires Configured(c) || Unconfigured(c)
    ensures OnlyNewer(c) <==> Configured(c)
  {
    hide Starts, LegalRun, OrderlyRun, Run, Configured;
    if Configured(c) {
      forall s: State, es: seq<Event>, i: nat
        | Starts(s, c) && LegalRun(s, es) && OrderlyRun(s, es) && i < |Run(s, es).installs|
        ensures Run(s, es).installs[i].from < Run(s, es).installs[i].text.version
      {
        InstallsAreNewer(s, c, es, i);
      }
    } else {
      var text := Text(0, true, 0, 0);
      assert c == Conf(-1, c.text, 0);
      var s, s' := UnconfiguredMasterDowngrades(0, text, c.text);
      var es :| LegalRun(s, es) && OrderlyRun(s, es) && Run(s, es) == s';
      assert Run(s, es).installs[0].from == Run(s, es).installs[0].text.version;
    }
  }

  /** A master that never got its configuration announces version -1, which arrives as 2^32 - 1:
      an agent at any version then takes the first valid configuration, even an older one. */
  lemma UnconfiguredMasterDowngrades(n: nat, text: Text, blank: Text) returns (s: State, s': State)
    requires n < TWO31 && text.valid && text.version == 0
    ensures Starts(s, Conf(-1, blank, 0)) && !s.master.push && Reaches(s, s')
    ensures s'.installs == [Install(0, n, text)] && text.version <= n
  {
    hide Reaches;
    var c, c' := Conf(-1, blank, 0), Conf(0, text, 0);
    var m, m' := Master(c, true), Master(c', true);
    var x0 := Agent(n, 1, false, false, false, [], []);
    var x1 := x0.(up := true, out := [HeartBeat(n, 1)]);
    var x2 := x1.(out := [], back := [HeartBeatReply(TWO32 - 1, 0, true)]);
    var x3 := x1.(out := [GetLatest(TWO32 - 1)], downloading := true);
    var x4 := x3.(out := [], back := [LatestReply(0, text)]);
    s, s' := Solo(Master(c, false), x0, {c}, []), Solo(m', Restart(text), {c} + {c'}, [Install(0, n, text)]);
    ReachesSelf(s');
    assert [] + [Install(0, n, text)] == [Install(0, n, text)];
    SoloAgent(m', x4, {c} + {c'}, [], true, s');
    assert x3.out[1..] == [] && x3.back + [LatestReply(0, text)] == x4.back;
    SoloMaster(m', x3, {c} + {c'}, [], s');
    SoloUpdate(m, x3, {c}, [], c', s');
    assert x2.back[1..] == [] && [] + [GetLatest(TWO32 - 1)] == x3.out;
    SoloAgent(m, x2, {c}, [], true, s');
    assert x1.out[1..] == [] && x1.back + [HeartBeatReply(TWO32 - 1, 0, true)] == x2.back;
    SoloMaster(m, x1, {c}, [], s');
    assert OnTimer(x0, true, true) == x1;
    SoloTimer(m, x0, {c}, [], s');
    SoloPush(Master(c, false), x0, {c}, [], s');
  }
}

/** The two ends of the push protocol as objects, each proved to take the protocol's steps. */
module ConfigPushNodes {
  import opened Basics
  import opened ConfigPush

  /** `ConfigureManager` */
  class ConfigureManager {
    var configureVersion: int
    var configure: Text
    var configureMd5: nat
    var push: bool

    ghost function View(): Master
      reads this
    {
      Master(Conf(configureVersion, configure, configureMd5), push)
    }

    constructor (blank: Text)
      ensures View() == Master(Conf(-1, blank, 0), false)
    {
      configureVersion, configure, configureMd5, push := -1, blank, 0, false;
    }

    method SetConfigure(version: int, text: Text, cksum: nat)
      modifies this
      ensures View() == ConfigPush.SetConfigure(old(View()), Conf(version, text, cksum))
    {
      configureVersion := version;
      configure := text;
      configureMd5 := cksum;
    }
  }

  datatype Message =
    FromAgent(r: Request) | UpdateConfigure(conf: Conf) | SetPush(on: bool) | QueryAgentStatus(id: nat) | Unknown

  /** What is queued in answer; the content of a status reply comes from the status updater. */
  datatype Queued = ToAgent(r: Reply) | UpdateConfigureReply | SetPushReply | AgentStatusReply(id: nat) | Nothing

  /** `MasterWorker::HandleMessage`; `fetched` is the row the database query returned, if any.
      The two administration commands are the protocol's `Update` and `Push` events. */
  method MasterHandleMessage(m: ConfigureManager, msg: Message, fetched: Option<Conf>)
    returns (ret: int, reply: Queued)
    modifies m
    ensures ret == if msg.Unknown? then -1 else 0
    ensures match msg
      case FromAgent(r) => m.View() == AfterFetch(old(m.View()), r, fetched) && reply == ToAgent(Answer(m.View(), r))
      case UpdateConfigure(c) =>
        m.View() == ConfigPush.SetConfigure(old(m.View()), c) && reply == UpdateConfigureReply
      case SetPush(on) => m.View() == old(m.View()).(push := on) && reply == SetPushReply
      case QueryAgentStatus(id) => m.View() == old(m.View()) && reply == AgentStatusReply(id)
      case Unknown => m.View() == old(m.View()) && reply == Nothing
  {
    ret, reply := 0, Nothing;
    match msg
    case FromAgent(r) =>
      if r.HeartBeat? {
        if fetched.Some? {
          m.SetConfigure(fetched.value.version, fetched.value.text, fetched.value.md5);
        }
        reply := ToAgent(HeartBeatReply(U32(m.configureVersion), m.configureMd5, m.push));
      } else {
        reply := ToAgent(LatestReply(U32(m.configureVersion), m.configure));
      }
    case UpdateConfigure(c) =>
      m.SetConfigure(c.version, c.text, c.md5);
      reply := UpdateConfigureReply;
    case SetPush(on) =>
      m.push := on;
      reply := SetPushReply;
    case QueryAgentStatus(id) => reply := AgentStatusReply(id);
    case Unknown => ret := -1;
  }

  /** `CAgentHeartBeatWorker` with the version and checksum its process runs with. */
  class HeartBeatWorker {
    var version: nat
    var cksum: nat
    var up: bool
    var downloading: bool
    var out: seq<Request>          // accepted by m_sender
    ghost var stuck: bool
    ghost var back: seq<Reply>     // what the master has sent on this connection

    ghost function View(): Agent
      reads this
    {
      Agent(version, cksum, up, downloading, stuck, out, back)
    }

    constructor (t: Text)
      ensures View() == Restart(t)
    {
      version, cksum, up, downloading, out := U32(t.version), t.cksum, false, false, [];
      stuck, back := false, [];
    }

    method TimerNotify(connects: bool, room: bool)
      modifies this
      ensures View() == OnTimer(old(View()), connects, room)
    {
      if !up {
        up := connects;
      }
      if !up {
        return;
      }
      if room {
        out := out + [HeartBeat(version, cksum)];
      }
    }

    method Exit()
      modifies this
      ensures View() == OnDrop(old(View()))
    {
      out, up, downloading, stuck, back := [], false, false, false, [];
    }

    /** `HandleMessage`: a valid configuration is written and the process exits to restart with it. */
    method HandleMessage(m: Reply, room: bool) returns (written: Option<Text>)
      modifies this
      ensures Installs(m) ==> written == Some(m.text)
      ensures !Installs(m) ==> written == None && View() == OnReply(old(View()), m, room)
    {
      written := None;
      match m
      case HeartBeatReply(v, md5, push) =>
        if push && v > version {
          if md5 == cksum || downloading {
            return;
          }
          if room {
            out := out + [GetLatest(v)];
          }
          stuck := stuck || !room;
          downloading := true;
        }
      case LatestReply(v, t) =>
        if !t.valid {
          downloading := false;
        } else {
          written := Some(t);
        }
    }
  }
}
