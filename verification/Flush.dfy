/** The flush rate controller of `CCacheProcess` on values. */
module FlushRate {
  import opened Basics

  datatype Params = Params(maxReq: int, minTime: int, maxTime: int)

  /** `SetFlushParameter`, the part that fixes the limits */
  function Clamp(mreq: Int32, mintime: Int32, maxtime: Int32): Params {
    var m := if mreq <= 0 then 1 else mreq;
    var lo := if mintime < 10 then 10 else mintime;
    Params(if m > 10000 then 10000 else m, lo, if maxtime <= lo then Wrap32(lo * 2) else maxtime)
  }

  predicate Clamped(p: Params) {
    1 <= p.maxReq <= 10000 && 10 <= p.minTime <= INT_MAX && -TWO31 <= p.maxTime <= INT_MAX
  }

  predicate Good(p: Params) { Clamped(p) && p.minTime < p.maxTime }

  /** Any parameters become usable ones unless the minimum must be doubled and does not fit. */
  lemma ClampGood(mreq: Int32, mintime: Int32, maxtime: Int32)
    ensures Clamped(Clamp(mreq, mintime, maxtime))
    ensures Good(Clamp(mreq, mintime, maxtime)) <==> !(maxtime <= mintime && mintime > INT_MAX / 2)
    ensures 1 <= mreq <= 10000 && 10 <= mintime < maxtime ==>
      Clamp(mreq, mintime, maxtime) == Params(mreq, mintime, maxtime)
  {
  }

  /** Where each parameter is cut off. */
  lemma ClampEdges(mreq: Int32, mintime: Int32, maxtime: Int32)
    ensures var p := Clamp(mreq, mintime, maxtime);
      && (mreq <= 0 ==> p.maxReq == 1) && (mreq > 10000 ==> p.maxReq == 10000)
      && (0 < mreq <= 10000 ==> p.maxReq == mreq)
      && (mintime < 10 ==> p.minTime == 10) && (mintime >= 10 ==> p.minTime == mintime)
      && (maxtime > p.minTime ==> p.maxTime == maxtime)
      && (maxtime <= p.minTime < 0x4000_0000 ==> p.maxTime == 2 * p.minTime)
  {
  }

  /** `(v - minDirtyTime) * (maxFlushReq - 1)` before it is stored in an `int` */
  function Product(p: Params, v: int): int { (v - p.minTime) * (p.maxReq - 1) }

  /** The product is an `int` for the largest age that is interpolated. */
  predicate Fits(p: Params) { Product(p, p.maxTime - 1) <= INT_MAX }

  /** The rate meant between the two ages; both ends included. */
  function Interpolated(p: Params, v: int): int
    requires Good(p) && p.minTime <= v <= p.maxTime
  {
    1 + Product(p, v) / (p.maxTime - p.minTime)
  }

  /** The straight line from 1 to the maximum, rounded down. */
  lemma InterpolatedFloor(p: Params, v: int)
    requires Good(p) && p.minTime <= v <= p.maxTime
    ensures var span, r := p.maxTime - p.minTime, Interpolated(p, v) - 1;
      r * span <= (v - p.minTime) * (p.maxReq - 1) < (r + 1) * span
  {
    var d, x := p.maxTime - p.minTime, Product(p, v);
    assert x == d * (x / d) + x % d;
    assert (x / d + 1) * d == d * (x / d) + d;
  }

  /** Division towards zero. */
  function TruncDiv(a: int, d: int): int
    requires d > 0
  {
    if a >= 0 then a / d else -(-a / d)
  }

  lemma TruncTowardsZero(a: nat, d: int)
    requires d > 0
    ensures TruncDiv(a, d) * d <= a < (TruncDiv(a, d) + 1) * d && TruncDiv(0 - a, d) == 0 - TruncDiv(a, d)
  {
    assert a == d * (a / d) + a % d && (a / d + 1) * d == d * (a / d) + d;
  }

  /** The rate computed, with the product kept in 32 bits. */
  function Rate(p: Params, v: int): int
    requires p.minTime <= v < p.maxTime
  {
    1 + TruncDiv(Wrap32(Product(p, v)), p.maxTime - p.minTime)
  }

  /** The limit an age calls for. */
  function Target(p: Params, v: int): int
    requires Good(p)
  {
    if v >= p.maxTime then p.maxReq else if v >= p.minTime then Interpolated(p, v) else 0
  }

  datatype Mode = Async | Sync(dirty: bool)

  /** `CalculateFlushSpeed`: the limit after the age `v` has been seen with the limit at `m`. */
  function NextLimit(p: Params, mode: Mode, m: int, v: int): int {
    var n :=
      match mode
      case Sync(dirty) => if dirty then p.maxReq else 0
      case Async =>
        if v >= p.maxTime then p.maxReq
        else if v >= p.minTime then (var r := Rate(p, v); if r > m then r else m)
        else 0;
    if n > p.maxReq then p.maxReq else n
  }

  /** In sync mode the age does not matter: the fastest speed while memory is dirty, else none. */
  lemma SyncLimit(p: Params, m: int, v: int)
    requires Clamped(p)
    ensures NextLimit(p, Sync(true), m, v) == p.maxReq && NextLimit(p, Sync(false), m, v) == 0
  {
  }

  /** A doubled minimum that does not fit leaves a negative maximum: every age is too old then. */
  lemma DoubledMinimumOverflows(mreq: Int32, mintime: Int32, maxtime: Int32, m: int, v: nat)
    ensures var p := Clamp(mreq, mintime, maxtime);
      !Good(p) ==> p.maxTime < 0 && NextLimit(p, Async, m, v) == p.maxReq
  {
  }

  // ---------------------------------------------------------------- the interpolation

  lemma MultipleAbove(d: int, k: int)
    requires d > 0 && d * k > -d
    ensures k >= 0
  {
  }

  lemma DivMonotone(a: int, b: int, d: int)
    requires 0 <= a <= b && d > 0
    ensures 0 <= a / d <= b / d
  {
    var k := b / d - a / d;
    assert d * k == d * (b / d) - d * (a / d);
    assert a == d * (a / d) + a % d && b == d * (b / d) + b % d;
    MultipleAbove(d, k);
    MultipleAbove(d, a / d);
  }

  lemma DivExact(a: int, d: int)
    requires 0 <= a && d > 0
    ensures d * a / d == a
  {
    var q := d * a / d;
    assert d * a == d * q + d * a % d;
    assert d * (a - q) == d * a - d * q && d * (q - a) == d * q - d * a;
    MultipleAbove(d, a - q);
    MultipleAbove(d, q - a);
  }

  /** The rate meant starts at 1, ends at the maximum, and never falls as the age grows. */
  lemma InterpolatedMonotone(p: Params, v: int, w: int)
    requires Good(p) && p.minTime <= v <= w <= p.maxTime
    ensures 1 <= Interpolated(p, v) <= Interpolated(p, w) <= p.maxReq
    ensures Interpolated(p, p.minTime) == 1 && Interpolated(p, p.maxTime) == p.maxReq
  {
    var d, k := p.maxTime - p.minTime, p.maxReq - 1;
    var x, y := v - p.minTime, w - p.minTime;
    MulMonotone(x, y, k);
    MulMonotone(y, d, k);
    DivMonotone(x * k, y * k, d);
    DivMonotone(y * k, d * k, d);
    DivExact(k, d);
    MulMonotone(0, x, k);
    DivMonotone(0, x * k, d);
  }

  lemma MulMonotone(a: int, b: int, k: int)
    requires 0 <= a <= b && 0 <= k
    ensures 0 <= a * k <= b * k
  {
  }

  lemma TargetMonotone(p: Params, v: int, w: int)
    requires Good(p) && v <= w
    ensures 0 <= Target(p, v) <= Target(p, w) <= p.maxReq
    ensures v >= p.minTime ==> Target(p, v) >= 1
  {
    if p.minTime <= v < p.maxTime {
      InterpolatedMonotone(p, v, if w < p.maxTime then w else p.maxTime);
    } else if p.minTime <= w < p.maxTime {
      InterpolatedMonotone(p, w, w);
    }
  }

  // ---------------------------------------------------------------- the product in 32 bits

  /** The product stays in 32 bits for every age exactly when it does for the largest age that
      is interpolated. */
  lemma ProductFits(p: Params)
    requires Good(p)
    ensures (forall v :: p.minTime <= v < p.maxTime ==> Product(p, v) <= INT_MAX) <==> Fits(p)
    ensures forall v :: p.minTime <= v < p.maxTime ==> 0 <= Product(p, v)
  {
    forall v | p.minTime <= v < p.maxTime ensures 0 <= Product(p, v) <= Product(p, p.maxTime - 1) {
      MulMonotone(v - p.minTime, p.maxTime - 1 - p.minTime, p.maxReq - 1);
    }
  }

  /** A span of 214770 is safe for every limit, and the largest span that is. */
  lemma SafeSpan(p: Params)
    requires Good(p)
    ensures p.maxTime - p.minTime <= 214770 ==> Fits(p)
    ensures p.maxReq == 10000 ==> (Fits(p) <==> p.maxTime - p.minTime <= 214770)
  {
    var top, k := p.maxTime - p.minTime - 1, p.maxReq - 1;
    if top <= 214769 {
      MulMonotone(top, 214769, k);
    }
  }

  /** With a product that fits, the rate computed is the rate meant. */
  lemma FitsExact(p: Params, v: int)
    requires Good(p) && Fits(p) && p.minTime <= v < p.maxTime
    ensures Rate(p, v) == Interpolated(p, v)
  {
    hide Product, Fits, Wrap32;
    ProductFits(p);
    FitsAlready(Product(p, v));
  }

  lemma FitsAlready(x: int)
    requires 0 <= x <= INT_MAX
    ensures Wrap32(x) == x
  {
  }

  /** Otherwise the first age whose product does not fit computes at most 1 and means at least 2. */
  lemma OverflowAge(p: Params) returns (v: int)
    requires Good(p) && !Fits(p)
    ensures p.minTime <= v < p.maxTime && Rate(p, v) <= 1 < 2 <= Interpolated(p, v)
  {
    hide Rate, Interpolated;
    var k, top := p.maxReq - 1, p.maxTime - 1 - p.minTime;
    assert k > 0;
    var q := INT_MAX / k;
    FirstOver(k);
    Quotient(k, q, top);
    v := p.minTime + q + 1;
    assert Product(p, v) == (q + 1) * k;
    RateOver(p, v);
  }

  lemma FirstOver(k: int)
    requires k > 0
    ensures var q := INT_MAX / k; k * q <= INT_MAX < (q + 1) * k <= INT_MAX + k
  {
    var q := INT_MAX / k;
    assert INT_MAX == k * q + INT_MAX % k;
    assert (q + 1) * k == k * q + k;
  }

  /** A product just above the largest `int` wraps to a negative number. */
  lemma RateOver(p: Params, v: int)
    requires Good(p) && p.minTime <= v < p.maxTime && INT_MAX < Product(p, v) <= INT_MAX + 10000
    ensures Rate(p, v) <= 1 < 2 <= Interpolated(p, v)
  {
    hide Product, TruncDiv;
    var d, x := p.maxTime - p.minTime, Product(p, v);
    assert Wrap32(x) == x - TWO32;
    NegativeQuotient(x - TWO32, d);
    AtLeastOne(x, d);
  }

  lemma Quotient(k: int, q: int, top: int)
    requires 0 < k && k * q <= INT_MAX < top * k
    ensures q < top
  {
    if q >= top {
      MulMonotone(if top < 0 then 0 else top, q, k);
      assert false;
    }
  }

  lemma NegativeQuotient(a: int, d: int)
    requires a < 0 && d > 0
    ensures TruncDiv(a, d) <= 0
  {
    DivMonotone(0, -a, d);
  }

  lemma AtLeastOne(x: int, d: int)
    requires 0 < d <= x
    ensures x / d >= 1
  {
    DivMonotone(d, x, d);
    DivExact(1, d);
  }

  /** The rate computed is the rate meant for every age if and only if the product fits. */
  lemma RateExact(p: Params)
    requires Good(p)
    ensures (forall v :: p.minTime <= v < p.maxTime ==> Rate(p, v) == Interpolated(p, v)) <==> Fits(p)
  {
    hide Rate, Interpolated, Fits;
    if Fits(p) {
      forall v | p.minTime <= v < p.maxTime ensures Rate(p, v) == Interpolated(p, v) {
        FitsExact(p, v);
      }
    } else {
      var v := OverflowAge(p);
    }
  }

  /** From limit 0 the limit reaches the target for every age if and only if the product fits. */
  lemma LimitMeetsTarget(p: Params)
    requires Good(p)
    ensures (forall v :: NextLimit(p, Async, 0, v) >= Target(p, v)) <==> Fits(p)
  {
    hide Rate, Interpolated, Fits;
    if Fits(p) {
      forall v ensures NextLimit(p, Async, 0, v) >= Target(p, v) {
        NextLimitBounds(p, Async, 0, v);
      }
    } else {
      var v := OverflowAge(p);
      assert NextLimit(p, Async, 0, v) < Target(p, v);
    }
  }

  /** Accepted parameters for which the limit stays at 0 where 3000 is called for. */
  lemma OverflowStallsFlush()
    ensures var p := Clamp(10000, 10, 1000010);
      Good(p) && Target(p, 300010) == 3000 && NextLimit(p, Async, 0, 300010) == 0
  {
  }

  // ---------------------------------------------------------------- runs

  /** The limit after a run of ages in async mode. */
  function RunLimit(p: Params, m: int, ages: seq<int>): int {
    if ages == [] then m
    else NextLimit(p, Async, RunLimit(p, m, ages[..|ages| - 1]), ages[|ages| - 1])
  }

  /** All ages have reached the minimum. */
  predicate AllOld(p: Params, ages: seq<int>) {
    forall j :: 0 <= j < |ages| ==> ages[j] >= p.minTime
  }

  lemma NextLimitBounds(p: Params, mode: Mode, m: int, v: int)
    requires Clamped(p) && 0 <= m
    ensures 0 <= NextLimit(p, mode, m, v) <= p.maxReq
    ensures mode.Async? && m <= p.maxReq && NextLimit(p, mode, m, v) < m ==> v < p.minTime
    ensures mode.Async? && Good(p) && Fits(p) ==> NextLimit(p, mode, m, v) >= Target(p, v)
    ensures mode.Async? && Good(p) && Fits(p) && m <= p.maxReq && v >= p.minTime ==>
      NextLimit(p, mode, m, v) == if m > Target(p, v) then m else Target(p, v)
  {
    hide Rate, Interpolated, Fits;
    if Good(p) && Fits(p) && p.minTime <= v < p.maxTime {
      FitsExact(p, v);
      InterpolatedMonotone(p, v, v);
    }
  }

  /** Over every run of ages the limit stays in range and falls only when the age drops below
      the minimum.  If the product fits, it is at least the target, and so at least 1 once the
      age has reached the minimum. */
  lemma {:induction false} RunBounds(p: Params, m: int, ages: seq<int>)
    requires Clamped(p) && 0 <= m <= p.maxReq
    ensures 0 <= RunLimit(p, m, ages) <= p.maxReq
    ensures ages != [] ==>
      var v := ages[|ages| - 1]; var before := RunLimit(p, m, ages[..|ages| - 1]); var now := RunLimit(p, m, ages);
      && (now < before ==> v < p.minTime)
      && (Good(p) && Fits(p) ==> now >= Target(p, v) && (v >= p.minTime ==> now >= 1))
  {
    hide NextLimit, Target, Fits;
    if ages != [] {
      RunBounds(p, m, ages[..|ages| - 1]);
      NextLimitBounds(p, Async, RunLimit(p, m, ages[..|ages| - 1]), ages[|ages| - 1]);
      if Good(p) {
        TargetMonotone(p, ages[|ages| - 1], ages[|ages| - 1]);
      }
    }
  }

  /** After every run the limit is at least the target of the last age if and only if the
      product fits. */
  lemma RunMeetsTarget(p: Params)
    requires Good(p)
    ensures (forall ages: seq<int> :: ages != [] ==> RunLimit(p, 0, ages) >= Target(p, ages[|ages| - 1])) <==> Fits(p)
  {
    hide NextLimit, Target, Fits;
    if Fits(p) {
      forall ages: seq<int> | ages != [] ensures RunLimit(p, 0, ages) >= Target(p, ages[|ages| - 1]) {
        RunBounds(p, 0, ages);
      }
    } else {
      LimitMeetsTarget(p);
      var v :| NextLimit(p, Async, 0, v) < Target(p, v);
      assert [v][..0] == [] && [v][|[v]| - 1] == v;
      assert RunLimit(p, 0, [v]) < Target(p, v);
    }
  }

  /** As long as no age drops below the minimum, the limit is the largest of the starting
      limit and of the targets seen: it remembers the worst age, not the latest. */
  lemma {:induction false} RunRemembersWorst(p: Params, m: int, ages: seq<int>)
    requires Good(p) && Fits(p) && 0 <= m <= p.maxReq && AllOld(p, ages)
    ensures var now := RunLimit(p, m, ages);
      && now >= m && (forall j :: 0 <= j < |ages| ==> now >= Target(p, ages[j]))
      && (now == m || exists j :: 0 <= j < |ages| && now == Target(p, ages[j]))
  {
    hide NextLimit, Target, Fits;
    if ages != [] {
      var init, v := ages[..|ages| - 1], ages[|ages| - 1];
      RunRemembersWorst(p, m, init);
      RunBounds(p, m, init);
      NextLimitBounds(p, Async, RunLimit(p, m, init), v);
      assert forall j :: 0 <= j < |init| ==> init[j] == ages[j];
      if RunLimit(p, m, ages) != m && RunLimit(p, m, ages) == RunLimit(p, m, init) {
        var j :| 0 <= j < |init| && RunLimit(p, m, init) == Target(p, init[j]);
        assert RunLimit(p, m, ages) == Target(p, ages[j]);
      }
    }
  }

  /** An age below the minimum starts afresh: nothing before it matters. */
  lemma {:induction false} RunForgets(p: Params, m: int, before: seq<int>, v: int, after: seq<int>)
    requires Good(p) && v < p.minTime
    ensures RunLimit(p, m, before + [v] + after) == RunLimit(p, 0, after)
  {
    hide Rate;
    var ages := before + [v] + after;
    if after == [] {
      assert ages[..|ages| - 1] == before && ages[|ages| - 1] == v;
    } else {
      RunForgets(p, m, before, v, after[..|after| - 1]);
      assert ages[..|ages| - 1] == before + [v] + after[..|after| - 1];
      assert ages[|ages| - 1] == after[|after| - 1];
    }
  }
}

/** `CFlushRequest` reference counting on values; requests are an arbitrary type `R`. */
module FlushRequests {
  import opened Basics

  type Task = nat

  /** `out` are the rows handed to the flush queue and not completed. */
  datatype Req = Req(numReq: int, wait: Option<Task>, committed: bool, out: set<nat>)

  predicate ReqOk(r: Req) {
    && r.numReq == |r.out|
    && (r.committed ==> r.out != {})
    && (!r.committed ==> r.wait == None)
  }

  function Committed<R>(view: map<R, Req>): set<R> { set r | r in view && view[r].committed }

  /** `owner` says which live request each waiting task waits for. */
  ghost predicate Owns<R>(view: map<R, Req>, owner: map<Task, R>) {
    && (forall t :: t in owner ==> owner[t] in view && view[owner[t]].wait == Some(t))
    && (forall r :: r in view && view[r].wait.Some? ==> view[r].wait.value in owner && owner[view[r].wait.value] == r)
  }

  /** `given` are the callback tasks committed so far and `notified` those replied to, in order. */
  ghost predicate FlushOk<R>(view: map<R, Req>, owner: map<Task, R>, nFlushReq: int, given: seq<Task>,
                             notified: seq<Task>) {
    && (forall r :: r in view ==> ReqOk(view[r]))
    && nFlushReq == |Committed(view)|
    && Owns(view, owner)
    && multiset(given) == multiset(notified) + multiset(owner.Keys)
  }

  /** A request with no outstanding row is gone, and its task was notified exactly once; a task
      still waiting has a committed request with rows outstanding and was not notified. */
  lemma NotifiedOnce<R>(view: map<R, Req>, owner: map<Task, R>, nFlushReq: int, given: seq<Task>,
                        notified: seq<Task>, t: Task)
    requires FlushOk(view, owner, nFlushReq, given, notified)
    requires multiset(given)[t] == 1
    ensures t in owner ==> multiset(notified)[t] == 0 && view[owner[t]].committed && view[owner[t]].out != {}
    ensures t !in owner ==> multiset(notified)[t] == 1
  {
    assert multiset(given)[t] == multiset(notified)[t] + multiset(owner.Keys)[t];
    if t in owner {
      assert ReqOk(view[owner[t]]);
    }
  }

  lemma OpenKeeps<R>(view: map<R, Req>, owner: map<Task, R>, n: int, given: seq<Task>, notified: seq<Task>, r: R)
    requires FlushOk(view, owner, n, given, notified) && r !in view
    ensures FlushOk(view[r := Req(0, None, false, {})], owner, n, given, notified)
  {
    assert Committed(view[r := Req(0, None, false, {})]) == Committed(view);
  }

  lemma RowKeeps<R>(view: map<R, Req>, owner: map<Task, R>, n: int, given: seq<Task>, notified: seq<Task>, r: R,
                    row: nat)
    requires FlushOk(view, owner, n, given, notified) && r in view && !view[r].committed && row !in view[r].out
    ensures FlushOk(view[r := view[r].(numReq := view[r].numReq + 1, out := view[r].out + {row})],
                    owner, n, given, notified)
  {
    assert ReqOk(view[r]);
    assert Committed(view[r := view[r].(numReq := view[r].numReq + 1, out := view[r].out + {row})]) == Committed(view);
  }

  lemma OwnsMore<R>(view: map<R, Req>, owner: map<Task, R>, r: R, req: Req)
    requires Owns(view, owner) && r in view && view[r].wait == None
    requires req.wait.Some? ==> req.wait.value !in owner
    ensures Owns(view[r := req], Owning(owner, req.wait, r))
  {
  }

  lemma OwnsLess<R>(view: map<R, Req>, owner: map<Task, R>, r: R)
    requires Owns(view, owner) && r in view
    ensures Owns(view - {r}, if view[r].wait.Some? then owner - {view[r].wait.value} else owner)
  {
  }

  /** Committing a request with rows outstanding. */
  lemma CommitKeeps<R>(view: map<R, Req>, owner: map<Task, R>, n: int, given: seq<Task>, notified: seq<Task>, r: R,
                       wait: Option<Task>)
    requires FlushOk(view, owner, n, given, notified) && r in view && !view[r].committed && view[r].numReq != 0
    requires wait.Some? ==> wait.value !in given
    ensures FlushOk(view[r := view[r].(wait := wait, committed := true)], Owning(owner, wait, r), n + 1,
                    Given(given, wait), notified)
  {
    hide Owns;
    assert ReqOk(view[r]);
    var req := view[r].(wait := wait, committed := true);
    assert Committed(view[r := req]) == Committed(view) + {r};
    if wait.Some? {
      WaitersGiven(owner, given, notified, wait.value);
      assert owner[wait.value := r].Keys == owner.Keys + {wait.value};
      assert multiset(owner.Keys + {wait.value}) == multiset(owner.Keys) + multiset{wait.value};
    }
    OwnsMore(view, owner, r, req);
  }

  function Owning<R>(owner: map<Task, R>, wait: Option<Task>, r: R): map<Task, R> {
    if wait.Some? then owner[wait.value := r] else owner
  }

  function Given(given: seq<Task>, wait: Option<Task>): seq<Task> {
    if wait.Some? then given + [wait.value] else given
  }

  lemma WaitersGiven<R>(owner: map<Task, R>, given: seq<Task>, notified: seq<Task>, t: Task)
    requires multiset(given) == multiset(notified) + multiset(owner.Keys)
    ensures t in owner ==> t in given
  {
    assert multiset(given)[t] == multiset(notified)[t] + multiset(owner.Keys)[t];
  }

  /** Committing, or dropping, a request without rows: it goes away and its task is notified. */
  lemma DropKeeps<R>(view: map<R, Req>, owner: map<Task, R>, n: int, given: seq<Task>, notified: seq<Task>, r: R,
                     wait: Option<Task>)
    requires FlushOk(view, owner, n, given, notified) && r in view && !view[r].committed
    ensures FlushOk(view - {r}, owner, n, Given(given, wait), Given(notified, wait))
  {
    assert ReqOk(view[r]);
    assert Committed(view - {r}) == Committed(view);
  }

  lemma RowDoneKeeps<R>(view: map<R, Req>, owner: map<Task, R>, n: int, given: seq<Task>, notified: seq<Task>, r: R,
                        row: nat)
    requires FlushOk(view, owner, n, given, notified) && r in view && view[r].committed && row in view[r].out
    requires view[r].numReq != 1
    ensures FlushOk(view[r := view[r].(numReq := view[r].numReq - 1, out := view[r].out - {row})],
                    owner, n, given, notified)
  {
    assert ReqOk(view[r]);
    var view' := view[r := view[r].(numReq := view[r].numReq - 1, out := view[r].out - {row})];
    assert Committed(view') == Committed(view);
    assert |view[r].out - {row}| > 0;
  }

  lemma WaitOwned<R>(view: map<R, Req>, owner: map<Task, R>, r: R)
    requires Owns(view, owner) && r in view
    ensures view[r].wait.Some? ==> view[r].wait.value in owner
  {
  }

  lemma LastRow<R>(view: map<R, Req>, owner: map<Task, R>, n: int, given: seq<Task>, notified: seq<Task>, r: R,
                   row: nat)
    requires FlushOk(view, owner, n, given, notified) && r in view && row in view[r].out
    ensures view[r].numReq == 1 <==> view[r].out == {row}
  {
    assert ReqOk(view[r]);
    assert |view[r].out - {row}| == |view[r].out| - 1;
    if |view[r].out - {row}| == 0 {
      assert view[r].out == {row};
    }
  }

  /** The last row: the waiting task, if any, is notified and the request goes away. */
  lemma LastRowKeeps<R>(view: map<R, Req>, owner: map<Task, R>, n: int, given: seq<Task>, notified: seq<Task>, r: R)
    requires FlushOk(view, owner, n, given, notified) && r in view && view[r].committed
    ensures FlushOk(view - {r}, if view[r].wait.Some? then owner - {view[r].wait.value} else owner, n - 1,
                    given, Given(notified, view[r].wait))
  {
    hide Owns;
    assert Committed(view - {r}) == Committed(view) - {r};
    OwnsLess(view, owner, r);
    WaitOwned(view, owner, r);
    if view[r].wait.Some? {
      var t := view[r].wait.value;
      assert (owner - {t}).Keys == owner.Keys - {t};
      assert multiset(owner.Keys) == multiset(owner.Keys - {t}) + multiset{t};
    }
  }
}

/** The flush part of `CCacheProcess`, and `CFlushRequest` */
module CacheFlush {
  import opened Basics
  import opened FlushRate
  import opened FlushRequests

  class FlushRequest {
    var numReq: int
    var wait: Option<Task>

    constructor ()
      ensures numReq == 0 && wait == None
    {
      numReq, wait := 0, None;
    }
  }

  /** Two 32-bit marker times subtracted into a signed int. */
  function Age(t1: nat, t2: nat): Int32 { Wrap32(t1 - t2) }

  /** The time between the last and the first marker, also where the markers themselves wrap. */
  lemma AgeIs(t2: nat, a: nat)
    requires a < 0x8000_0000 && t2 < 0x1_0000_0000
    ensures Age(t2 + a, t2) == a && Age((t2 + a) % 0x1_0000_0000, t2) == a
  {
  }

  class CacheProcess {
    var params: Params             // maxFlushReq, minDirtyTime, maxDirtyTime
    var mode: Mode                 // updateMode, with mem_dirty
    var nFlushReq: int
    var mFlushReq: int
    var notified: seq<Task>        // tasks whose ReplyNotify was called

    ghost var view: map<FlushRequest, Req>   // the live requests
    ghost var owner: map<Task, FlushRequest>
    ghost var given: seq<Task>

    ghost predicate Heap()
      reads this, view.Keys
    {
      forall r :: r in view ==> r.numReq == view[r].numReq && r.wait == view[r].wait
    }

    ghost predicate Valid()
      reads this, view.Keys
    {
      && Clamped(params) && 0 <= mFlushReq
      && FlushOk(view, owner, nFlushReq, given, notified)
      && Heap()
    }

    /** In every state of the process: a task that was given was notified exactly once, or waits
        for a request that has rows outstanding and was not notified. */
    lemma WaiterNotifiedOnce(t: Task)
      requires Valid() && multiset(given)[t] == 1
      ensures t !in owner ==> multiset(notified)[t] == 1
      ensures t in owner ==>
        && multiset(notified)[t] == 0
        && owner[t] in view && owner[t].wait == Some(t) && owner[t].numReq == |view[owner[t]].out| > 0
    {
      NotifiedOnce(view, owner, nFlushReq, given, notified, t);
      if t in owner {
        assert ReqOk(view[owner[t]]);
      }
    }

    constructor (mode: Mode, mreq: Int32, mintime: Int32, maxtime: Int32)
      ensures Valid() && view == map[] && given == [] && notified == [] && mFlushReq == 0
      ensures this.mode == mode && params == Clamp(mreq, mintime, maxtime)
    {
      this.mode, params := mode, Clamp(mreq, mintime, maxtime);
      nFlushReq, mFlushReq, notified := 0, 0, [];
      view, owner, given := map[], map[], [];
    }

    /** `SetFlushParameter`; older cache formats keep their parameters. */
    method SetFlushParameter(version: int, mreq: Int32, mintime: Int32, maxtime: Int32)
      requires Valid()
      modifies this`params
      ensures Valid() && params == if version < 4 then old(params) else Clamp(mreq, mintime, maxtime)
    {
      hide FlushOk;
      if version < 4 {
        return;
      }
      var m := if mreq <= 0 then 1 else mreq;
      if m > 10000 {
        m := 10000;
      }
      var lo := if mintime < 10 then 10 else mintime;
      var hi := if maxtime <= lo then Wrap32(lo * 2) else maxtime;
      params := Params(m, lo, hi);
    }

    /** `CalculateFlushSpeed`, given the first and last marker times */
    method CalculateFlushSpeed(t1: nat, t2: nat)
      requires Clamped(params) && 0 <= mFlushReq
      modifies this`mFlushReq
      ensures mFlushReq == NextLimit(params, mode, old(mFlushReq), Age(t1, t2))
      ensures 0 <= mFlushReq <= params.maxReq
    {
      var v := Age(t1, t2);
      NextLimitBounds(params, mode, mFlushReq, v);
      if mode.Sync? {
        mFlushReq := if mode.dirty then params.maxReq else 0;
      } else if v >= params.maxTime {
        mFlushReq := params.maxReq;
      } else if v >= params.minTime {
        var product := Wrap32((v - params.minTime) * (params.maxReq - 1));
        var m := 1 + TruncDiv(product, params.maxTime - params.minTime);
        if m > mFlushReq {
          mFlushReq := m;
        }
      } else {
        mFlushReq := 0;
      }
      if mFlushReq > params.maxReq {
        mFlushReq := params.maxReq;
      }
    }

    /** `new CFlushRequest` */
    method NewRequest() returns (r: FlushRequest)
      requires Valid()
      modifies this`view
      ensures Valid() && fresh(r) && view == old(view)[r := Req(0, None, false, {})]
    {
      hide FlushOk;
      r := new FlushRequest();
      OpenKeeps(view, owner, nFlushReq, given, notified, r);
      view := view[r := Req(0, None, false, {})];
    }

    /** `FlushRow`; `copied` says whether the row could be copied into a task of its own, `row`. */
    method FlushRow(r: FlushRequest, row: nat, copied: bool) returns (ret: int)
      requires Valid() && r in view && !view[r].committed && row !in view[r].out
      modifies this`view, r
      ensures Valid() && ret == (if copied then 0 else -1)
      ensures view == if copied
                      then old(view)[r := old(view)[r].(numReq := old(r.numReq) + 1, out := old(view)[r].out + {row})]
                      else old(view)
    {
      hide FlushOk;
      if !copied {
        return -1;
      }
      RowKeeps(view, owner, nFlushReq, given, notified, r, row);
      r.numReq := r.numReq + 1;
      view := view[r := view[r].(numReq := r.numReq, out := view[r].out + {row})];
      ret := 0;
    }

    /** The destructor: a task still waiting is notified. */
    method Destroy(r: FlushRequest)
      modifies this`notified, r
      ensures notified == Given(old(notified), old(r.wait)) && r.wait == None && r.numReq == old(r.numReq)
    {
      if r.wait.Some? {
        notified := notified + [r.wait.value];
        r.wait := None;
      }
    }

    /** `CommitFlushRequest`: without rows the callback is notified at once. */
    method CommitFlushRequest(r: FlushRequest, callback: Option<Task>)
      requires Valid() && r in view && !view[r].committed
      requires callback.Some? ==> callback.value !in given
      modifies this`view, this`owner, this`given, this`notified, this`nFlushReq, r
      ensures Valid() && given == Given(old(given), callback)
      ensures if old(r.numReq) == 0 then
          && view == old(view) - {r} && notified == Given(old(notified), callback) && nFlushReq == old(nFlushReq)
        else
          && notified == old(notified) && nFlushReq == old(nFlushReq) + 1
          && view == old(view)[r := old(view)[r].(wait := callback, committed := true)]
    {
      hide FlushOk;
      if r.numReq == 0 {
        DropKeeps(view, owner, nFlushReq, given, notified, r, callback);
        r.wait := callback;
        Destroy(r);
        view := view - {r};
      } else {
        CommitKeeps(view, owner, nFlushReq, given, notified, r, callback);
        r.wait := callback;
        nFlushReq := nFlushReq + 1;
        view, owner := view[r := view[r].(wait := callback, committed := true)], Owning(owner, callback, r);
      }
      given := Given(given, callback);
    }

    /** `CompleteRow` and, after the last row, `CompleteFlushRequest`; `next` says that
        `FlushNextNode` is called. */
    method CompleteRow(r: FlushRequest, row: nat, t1: nat, t2: nat) returns (next: bool)
      requires Valid() && r in view && view[r].committed && row in view[r].out
      modifies this`view, this`owner, this`notified, this`nFlushReq, this`mFlushReq, r
      ensures Valid() && given == old(given)
      ensures if old(view)[r].out == {row} then
          && view == old(view) - {r} && notified == Given(old(notified), old(r.wait)) && nFlushReq == old(nFlushReq) - 1
          && mFlushReq == NextLimit(params, mode, old(mFlushReq), Age(t1, t2)) && next == (nFlushReq < mFlushReq)
        else
          && view == old(view)[r := old(view)[r].(numReq := old(r.numReq) - 1, out := old(view)[r].out - {row})]
          && notified == old(notified) && nFlushReq == old(nFlushReq) && mFlushReq == old(mFlushReq) && !next
    {
      hide FlushOk, NextLimit;
      LastRow(view, owner, nFlushReq, given, notified, r, row);
      r.numReq := r.numReq - 1;
      if r.numReq == 0 {
        LastRowKeeps(view, owner, nFlushReq, given, notified, r);
        if r.wait.Some? {
          notified := notified + [r.wait.value];
          r.wait := None;
        }
        Destroy(r);
        nFlushReq := nFlushReq - 1;
        owner := if view[r].wait.Some? then owner - {view[r].wait.value} else owner;
        view := view - {r};
        CalculateFlushSpeed(t1, t2);
        next := nFlushReq < mFlushReq;
      } else {
        RowDoneKeeps(view, owner, nFlushReq, given, notified, r, row);
        view := view[r := view[r].(numReq := r.numReq, out := view[r].out - {row})];
        next := false;
      }
    }
  }
}
