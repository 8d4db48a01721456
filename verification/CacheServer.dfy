/** Round-robin connection choice, for any interleaving of threads. */
module RoundRobin {
  /** How often connection `c` of `n` comes up in the first `k` attempts `0, 1, 2, ...` mod `n`. */
  function Uses(k: nat, n: nat, c: nat): nat
    requires 0 < n
  {
    if k == 0 then 0 else Uses(k - 1, n, c) + if (k - 1) % n == c then 1 else 0
  }

  /** The share of connection `c` in `k` attempts: one in every whole round, and one more when
      the round under way has passed it. */
  function Share(k: nat, n: nat, c: nat): nat
    requires 0 < n
  {
    k / n + if c < k % n then 1 else 0
  }

  lemma {:induction false} UsesExactly(k: nat, n: nat, c: nat)
    requires 0 < n && c < n
    ensures Uses(k, n, c) == Share(k, n, c)
  {
    hide Share;
    if k == 0 {
      NoShare(n, c);
    } else {
      UsesExactly(k - 1, n, c);
      ShareNext(k - 1, n, c);
    }
  }

  lemma NoShare(n: nat, c: nat)
    requires 0 < n
    ensures Share(0, n, c) == 0
  {
    DivModUnique(0, n, 0, 0);
  }

  lemma ShareNext(k: nat, n: nat, c: nat)
    requires 0 < n && c < n
    ensures Share(k + 1, n, c) == Share(k, n, c) + if k % n == c then 1 else 0
  {
    NextInRound(k, n);
  }

  lemma NextInRound(k: nat, n: nat)
    requires 0 < n
    ensures if k % n == n - 1 then (k + 1) % n == 0 && (k + 1) / n == k / n + 1
            else (k + 1) % n == k % n + 1 && (k + 1) / n == k / n
  {
    var q, r := k / n, k % n;
    assert k == n * q + r;
    if r == n - 1 {
      assert k + 1 == n * (q + 1);
      DivModUnique(k + 1, n, q + 1, 0);
    } else {
      DivModUnique(k + 1, n, q, r + 1);
    }
  }

  lemma DivModUnique(x: nat, n: nat, q: nat, r: nat)
    requires x == n * q + r && r < n
    ensures x / n == q && x % n == r
  {
    var p, s := x / n, x % n;
    assert n * p + s == n * q + r;
    assert n * (p - q) == r - s && n * (q - p) == s - r;
    SmallMultiple(n, p - q);
    SmallMultiple(n, q - p);
  }

  lemma SmallMultiple(n: nat, d: int)
    requires n * d < n
    ensures n > 0 ==> d <= 0
  {
  }

  /** How many of the attempts so far were made by thread `t`. */
  function Attempts(schedule: seq<nat>, t: nat): nat {
    if schedule == [] then 0
    else Attempts(schedule[..|schedule| - 1], t) + if schedule[|schedule| - 1] == t then 1 else 0
  }

  /** The cursors after a schedule of attempts, one thread after the other in any order. */
  function Cursors(threads: nat, n: nat, schedule: seq<nat>): (c: seq<nat>)
    requires 0 < n && forall i :: 0 <= i < |schedule| ==> schedule[i] < threads
    ensures |c| == threads && forall t :: 0 <= t < threads ==> c[t] < n
  {
    if schedule == [] then seq(threads, _ => 0)
    else
      var c, t := Cursors(threads, n, schedule[..|schedule| - 1]), schedule[|schedule| - 1];
      c[t := Next(c[t], n)]
  }

  /** The cursor moves on by one and wraps. */
  function Next(i: nat, n: nat): nat { if i + 1 == n then 0 else i + 1 }

  /** Whatever the interleaving, a thread's cursor is its own number of attempts modulo the
      number of connections, so its k-th attempt uses connection k modulo that number. */
  lemma {:induction false} CursorIsOwnCount(threads: nat, n: nat, schedule: seq<nat>, t: nat)
    requires 0 < n && t < threads && forall i :: 0 <= i < |schedule| ==> schedule[i] < threads
    ensures Cursors(threads, n, schedule)[t] == Attempts(schedule, t) % n
  {
    hide Next;
    if schedule != [] {
      var init := schedule[..|schedule| - 1];
      CursorIsOwnCount(threads, n, init, t);
      NextCursor(Attempts(init, t), n);
    }
  }

  lemma NextCursor(k: nat, n: nat)
    requires 0 < n
    ensures Next(k % n, n) == (k + 1) % n
  {
    NextInRound(k, n);
  }

  /** The k-th attempt of a thread is on connection k modulo `n` of its own range. */
  ghost predicate UsedOk(n: nat, schedule: seq<nat>, used: seq<nat>) {
    && 0 < n && |used| == |schedule|
    && forall i :: 0 <= i < |schedule| ==> used[i] == n * schedule[i] + Attempts(schedule[..i], schedule[i]) % n
  }

  /** The connections used along a schedule, and the cursors it leaves. */
  ghost predicate LogOk(threads: nat, n: nat, schedule: seq<nat>, used: seq<nat>, cursors: seq<nat>) {
    && UsedOk(n, schedule, used)
    && (forall i :: 0 <= i < |schedule| ==> schedule[i] < threads)
    && cursors == Cursors(threads, n, schedule)
  }

  lemma AttemptKeepsLog(threads: nat, n: nat, schedule: seq<nat>, used: seq<nat>, cursors: seq<nat>, t: nat)
    requires LogOk(threads, n, schedule, used, cursors) && t < threads
    ensures |cursors| == threads && cursors[t] == Attempts(schedule, t) % n < n
    ensures LogOk(threads, n, schedule + [t], used + [n * t + cursors[t]], cursors[t := Next(cursors[t], n)])
  {
    hide Attempts;
    CursorIsOwnCount(threads, n, schedule, t);
    var s, u := schedule + [t], used + [n * t + cursors[t]];
    assert s[..|s| - 1] == schedule;
    forall i | 0 <= i < |s| ensures u[i] == n * s[i] + Attempts(s[..i], s[i]) % n {
      assert s[..i] == schedule[..i];
    }
  }

  // ---------------------------------------------------------------- fairness

  /** How often a connection was used. */
  function Hits(used: seq<nat>, conn: nat): nat {
    if used == [] then 0
    else Hits(used[..|used| - 1], conn) + if used[|used| - 1] == conn then 1 else 0
  }

  /** A connection of a thread is used as often as it comes up among the thread's own attempts,
      whatever the other threads do in between. */
  lemma {:induction false} HitsAreUses(n: nat, schedule: seq<nat>, used: seq<nat>, t: nat, c: nat)
    requires UsedOk(n, schedule, used) && c < n
    ensures Hits(used, n * t + c) == Uses(Attempts(schedule, t), n, c)
  {
    hide UsedOk;
    UsedLength(n, schedule, used);
    if schedule != [] {
      var k := |schedule| - 1;
      UsedSplits(n, schedule, used);
      HitsAreUses(n, schedule[..k], used[..k], t, c);
      SameConnection(n, schedule[k], Attempts(schedule[..k], schedule[k]) % n, t, c);
    }
  }

  lemma UsedLength(n: nat, schedule: seq<nat>, used: seq<nat>)
    requires UsedOk(n, schedule, used)
    ensures 0 < n && |used| == |schedule|
  {
  }

  lemma UsedSplits(n: nat, schedule: seq<nat>, used: seq<nat>)
    requires UsedOk(n, schedule, used) && schedule != [] && |used| == |schedule| && 0 < n
    ensures var k := |schedule| - 1;
      UsedOk(n, schedule[..k], used[..k]) && used[k] == n * schedule[k] + Attempts(schedule[..k], schedule[k]) % n
  {
    hide Attempts;
    var k := |schedule| - 1;
    forall i | 0 <= i < k
      ensures used[..k][i] == n * schedule[..k][i] + Attempts(schedule[..k][..i], schedule[..k][i]) % n
    {
      assert schedule[..k][..i] == schedule[..i];
    }
  }

  /** The ranges of the threads do not overlap. */
  lemma SameConnection(n: nat, x: nat, r: nat, t: nat, c: nat)
    requires r < n && c < n
    ensures n * x + r == n * t + c <==> x == t && r == c
  {
    DivModUnique(n * x + r, n, x, r);
    DivModUnique(n * t + c, n, t, c);
  }

  /** For any interleaving of the threads, a connection of thread `t` is used as often as its
      share says, so any two of them differ by at most one. */
  lemma Fair(threads: nat, n: nat, schedule: seq<nat>, used: seq<nat>, cursors: seq<nat>, t: nat, c: nat, d: nat)
    requires LogOk(threads, n, schedule, used, cursors) && c < n && d < n
    ensures Hits(used, n * t + c) == Share(Attempts(schedule, t), n, c)
    ensures -1 <= Hits(used, n * t + c) - Hits(used, n * t + d) <= 1
  {
    hide Hits, Attempts, Uses;
    HitsAreUses(n, schedule, used, t, c);
    HitsAreUses(n, schedule, used, t, d);
    UsesExactly(Attempts(schedule, t), n, c);
    UsesExactly(Attempts(schedule, t), n, d);
  }
}

/** `CCacheServer` */
module CacheServer {
  import opened Basics
  import opened RoundRobin

  const RETRY_TIMES := 2

  /** All connections before `i` were built. */
  predicate Reached(masterBuilds: nat -> bool, hotbakBuilds: nat -> bool, i: nat) {
    forall j: nat :: j < i ==> masterBuilds(j) && hotbakBuilds(j)
  }

  lemma ReachedZero(masterBuilds: nat -> bool, hotbakBuilds: nat -> bool)
    ensures Reached(masterBuilds, hotbakBuilds, 0)
  {
  }

  lemma ReachedNext(masterBuilds: nat -> bool, hotbakBuilds: nat -> bool, i: nat)
    requires Reached(masterBuilds, hotbakBuilds, i)
    ensures Reached(masterBuilds, hotbakBuilds, i + 1) <==> masterBuilds(i) && hotbakBuilds(i)
  {
  }

  lemma NotReachedLater(masterBuilds: nat -> bool, hotbakBuilds: nat -> bool, i: nat)
    ensures !Reached(masterBuilds, hotbakBuilds, i) ==>
      forall k: nat :: k >= i ==> !Reached(masterBuilds, hotbakBuilds, k)
  {
  }

  /** The poll thread whose range connection `i` is in. */
  function ThreadOf(i: nat, n: nat): nat
    requires 0 < n
  {
    i / n
  }

  lemma ThreadNext(i: nat, n: nat)
    requires 0 < n
    ensures ThreadOf(0, n) == 0
    ensures ThreadOf(i + 1, n) == ThreadOf(i, n) + if (i + 1) % n == 0 then 1 else 0
  {
    NextInRound(i, n);
    DivModUnique(0, n, 0, 0);
  }

  /** What the loop leaves in the two workers with index `i`: the thread of their range once it
      gets to them, which for the backup takes the master's success. */
  predicate AsBuilt(m: Option<nat>, h: Option<nat>, i: nat, n: nat, masterBuilds: nat -> bool,
                    hotbakBuilds: nat -> bool)
    requires 0 < n
  {
    var reached := Reached(masterBuilds, hotbakBuilds, i);
    && m == (if reached then Some(ThreadOf(i, n)) else None)
    && h == (if reached && masterBuilds(i) then Some(ThreadOf(i, n)) else None)
  }

  /** The loop of the constructor over all `conns` connections; the first failure ends it. */
  method AssignThreads(n: nat, conns: nat, masterBuilds: nat -> bool, hotbakBuilds: nat -> bool)
    returns (m: array<Option<nat>>, h: array<Option<nat>>)
    requires conns > 0 ==> 0 < n
    ensures fresh(m) && fresh(h) && m.Length == h.Length == conns
    ensures forall i :: 0 <= i < conns ==> AsBuilt(m[i], h[i], i, n, masterBuilds, hotbakBuilds)
  {
    hide ThreadOf, Reached;
    assert Reached(masterBuilds, hotbakBuilds, 0) by { ReachedZero(masterBuilds, hotbakBuilds); }
    m, h := new Option<nat>[conns](_ => None), new Option<nat>[conns](_ => None);
    if conns == 0 {
      return;
    }
    var i, j, stop := 0, 0, false;
    ThreadNext(0, n);
    while i < conns && !stop
      invariant 0 <= i <= conns && m != h
      invariant j == if i == 0 then 0 else ThreadOf(i - 1, n)
      invariant stop == !Reached(masterBuilds, hotbakBuilds, i)
      invariant forall c :: 0 <= c < i ==> AsBuilt(m[c], h[c], c, n, masterBuilds, hotbakBuilds)
      invariant forall c :: i <= c < conns ==> m[c] == h[c] == None
    {
      if i != 0 {
        ThreadNext(i - 1, n);
        if i % n == 0 {
          j := j + 1;
        }
      }
      ReachedNext(masterBuilds, hotbakBuilds, i);
      m[i] := Some(j);
      if masterBuilds(i) {
        h[i] := Some(j);
      }
      stop := !masterBuilds(i) || !hotbakBuilds(i);
      i := i + 1;
    }
    NotReachedLater(masterBuilds, hotbakBuilds, i);
  }

  class Server {
    const perTtc: nat                    // m_connect_per_ttc
    const threads: nat
    const master: array<Option<nat>>     // the poll thread each master connection was given
    const hotbak: array<Option<nat>>     // the same for the hot backup
    const currentWorkers: array<nat>
    var slave: bool                      // m_workers == m_hotbak_workers

    ghost var schedule: seq<nat>         // the thread of every attempt
    ghost var used: seq<nat>             // the connection of every attempt

    /** A connection was given to the thread whose range it is in, or to none. */
    ghost predicate Assigned()
      reads this, master, hotbak
    {
      && master.Length == perTtc * threads && hotbak.Length == master.Length
      && (0 < perTtc ==>
        && (forall i :: 0 <= i < master.Length ==> master[i] == None || master[i] == Some(ThreadOf(i, perTtc)))
        && (forall i :: 0 <= i < hotbak.Length ==> hotbak[i] == None || hotbak[i] == Some(ThreadOf(i, perTtc))))
    }

    ghost predicate Valid()
      reads this, master, hotbak, currentWorkers
    {
      && Assigned() && currentWorkers.Length == threads
      && (0 < perTtc ==> LogOk(threads, perTtc, schedule, used, currentWorkers[..]))
    }

    /** The constructor; `masterBuilds(i)` and `hotbakBuilds(i)` are the outcomes of `Build`,
        which records the thread before it can fail.  The first failure ends the loop. */
    constructor (perTtc: nat, threads: nat, masterBuilds: nat -> bool, hotbakBuilds: nat -> bool)
      ensures Valid() && schedule == [] && this.perTtc == perTtc && this.threads == threads && !slave
      ensures 0 < perTtc ==> forall i :: 0 <= i < master.Length ==>
        AsBuilt(master[i], hotbak[i], i, perTtc, masterBuilds, hotbakBuilds)
      ensures fresh(master) && fresh(hotbak) && fresh(currentWorkers)
    {
      this.perTtc, this.threads := perTtc, threads;
      var m, h := AssignThreads(perTtc, perTtc * threads, masterBuilds, hotbakBuilds);
      master, hotbak := m, h;
      var cur := new nat[threads](_ => 0);
      currentWorkers := cur;
      slave, schedule, used := false, [], [];
      new;
      assert 0 < perTtc ==> currentWorkers[..] == Cursors(threads, perTtc, []);
    }

    /** `SwitchMechine`: the cursors and the log go on as they are, so that round robin and
        fairness hold across switches. */
    method SwitchMechine(ms: int)
      requires Valid()
      modifies this`slave
      ensures Valid() && slave == (ms != 0)
      ensures schedule == old(schedule) && used == old(used) && currentWorkers[..] == old(currentWorkers[..])
    {
      if ms == 0 {
        slave := false;
      } else {
        slave := true;
      }
    }

    /** One round of the loop of `HandleRequest`: an attempt on the thread's next connection. */
    method Attempt(idx: nat) returns (conn: nat)
      requires Valid() && 0 < perTtc && idx < threads
      modifies this`schedule, this`used, currentWorkers
      ensures Valid() && schedule == old(schedule) + [idx] && used == old(used) + [conn]
      ensures conn == perTtc * idx + Attempts(old(schedule), idx) % perTtc
      ensures conn < master.Length && forall thread ::
        (if slave then hotbak[conn] else master[conn]) == Some(thread) ==> thread == idx
    {
      hide LogOk, Attempts;
      ghost var c := currentWorkers[..];
      AttemptKeepsLog(threads, perTtc, schedule, used, c, idx);
      conn := perTtc * idx + currentWorkers[idx];
      InRange(perTtc, threads, idx, currentWorkers[idx]);
      currentWorkers[idx] := currentWorkers[idx] + 1;
      if currentWorkers[idx] == perTtc {
        currentWorkers[idx] := 0;
      }
      assert currentWorkers[..] == c[idx := Next(c[idx], perTtc)];
      schedule, used := schedule + [idx], used + [conn];
    }

    /** In every state of the server, attempts on any two connections of a thread differ by at
        most one. */
    lemma ServerFair(t: nat, c: nat, d: nat)
      requires Valid() && c < perTtc && d < perTtc
      ensures -1 <= Hits(used, perTtc * t + c) - Hits(used, perTtc * t + d) <= 1
    {
      hide LogOk, Hits;
      Fair(threads, perTtc, schedule, used, currentWorkers[..], t, c, d);
    }

    static lemma InRange(n: nat, threads: nat, idx: nat, cur: nat)
      requires cur < n && idx < threads
      ensures n * idx + cur < n * threads && (n * idx + cur) / n == idx
    {
      DivModUnique(n * idx + cur, n, idx, cur);
      assert n * (idx + 1) <= n * threads by { MulUp(n, idx + 1, threads); }
    }

    static lemma MulUp(n: nat, a: nat, b: nat)
      requires a <= b
      ensures n * a <= n * b
    {
    }

    /** `HandleRequest`: `works(r)` says whether the connection tried in round `r` is ready and
        takes the request.  The call succeeds exactly when one of at most two attempts does. */
    method HandleRequest(idx: nat, works: nat -> bool) returns (ret: int, attempts: nat)
      requires Valid() && 0 < perTtc && idx < threads
      modifies this`schedule, this`used, currentWorkers
      ensures Valid() && attempts <= RETRY_TIMES
      ensures schedule == old(schedule) + if attempts == 1 then [idx] else [idx, idx]
      ensures if works(0) then attempts == 1 else attempts == 2
      ensures ret == if works(0) || works(1) then 0 else -1
    {
      hide LogOk;
      attempts := 0;
      while attempts < RETRY_TIMES
        invariant Valid() && attempts <= RETRY_TIMES
        invariant schedule == old(schedule) + if attempts == 0 then [] else if attempts == 1 then [idx] else [idx, idx]
        invariant forall r :: 0 <= r < attempts ==> !works(r)
      {
        var conn := Attempt(idx);
        attempts := attempts + 1;
        if works(attempts - 1) {
          return 0, attempts;
        }
      }
      ret := -1;
    }
  }
}
