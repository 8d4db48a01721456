/**
  The shape of the unit's chained hash table: which node may be on which list.
  Nodes are an arbitrary type `N`; `keyOf` says which key each hashed node holds
  and `bars` is its inverse.
 */
module BarrierTable {

  const HASH_SLOTS := 8192

  /** `key % BARRIER_HASH_MAX` with the macro `1024 * 8` expanded without parentheses. */
  function Key2Idx(key: nat): (i: nat)
    ensures i < HASH_SLOTS && i % 8 == 0
  {
    key % 1024 * 8
  }

  /** Keys below 1024 take every eighth slot in turn, and from there on the slots repeat. */
  lemma SlotOfKey(key: nat, other: nat)
    ensures key < 1024 ==> Key2Idx(key) == 8 * key
    ensures Key2Idx(key + 1024) == Key2Idx(key)
    ensures Key2Idx(key) == Key2Idx(other) <==> key % 1024 == other % 1024
  {
  }

  ghost predicate Distinct<N>(list: seq<N>) {
    forall p, q :: 0 <= p < q < |list| ==> list[p] != list[q]
  }

  /** Unlinking a node from the list it is on. */
  function Without<N(==)>(list: seq<N>, x: N): seq<N> {
    if list == [] then []
    else if list[0] == x then list[1..]
    else [list[0]] + Without(list[1..], x)
  }

  lemma WithoutUnlinks<N>(list: seq<N>, x: N)
    requires Distinct(list)
    ensures Distinct(Without(list, x))
    ensures x !in Without(list, x)
    ensures forall y :: y in list && y != x ==> y in Without(list, x)
    ensures forall y :: y in Without(list, x) ==> y in list
  {
    if list != [] {
      assert list == [list[0]] + list[1..];
      assert list[0] !in list[1..];
      if list[0] != x {
        WithoutUnlinks(list[1..], x);
        assert list[0] !in Without(list[1..], x);
      }
    }
  }

  /** The nodes hashed under their keys, one node per key. */
  ghost predicate Inverse<N>(bars: map<nat, N>, keyOf: map<N, nat>) {
    && (forall k :: k in bars ==> bars[k] in keyOf && keyOf[bars[k]] == k)
    && (forall b :: b in keyOf ==> keyOf[b] in bars && bars[keyOf[b]] == b)
  }

  lemma SameSize<U, V>(m: map<nat, U>, n: map<nat, V>)
    requires m.Keys == n.Keys
    ensures |m| == |n|
  {
    assert |m.Keys| == |n.Keys|;
  }

  lemma LinkKeepsInverse<N>(bars: map<nat, N>, keyOf: map<N, nat>, b: N, k: nat)
    requires Inverse(bars, keyOf) && b !in keyOf && k !in bars
    ensures Inverse(bars[k := b], keyOf[b := k])
    ensures |bars[k := b]| == |bars| + 1
  {
    assert bars[k := b].Keys == bars.Keys + {k};
  }

  lemma UnlinkKeepsInverse<N>(bars: map<nat, N>, keyOf: map<N, nat>, b: N)
    requires Inverse(bars, keyOf) && b in keyOf
    ensures keyOf[b] in bars
    ensures Inverse(bars - {keyOf[b]}, keyOf - {b})
    ensures |bars - {keyOf[b]}| == |bars| - 1
  {
    assert (bars - {keyOf[b]}).Keys == bars.Keys - {keyOf[b]};
  }

  /** Slot `i` lists exactly the nodes whose key hashes to `i`, each once. */
  ghost predicate SlotOk<N>(slot: seq<N>, i: int, keyOf: map<N, nat>) {
    && Distinct(slot)
    && (forall b :: b in slot ==> b in keyOf && Key2Idx(keyOf[b]) == i)
    && (forall b :: b in keyOf && Key2Idx(keyOf[b]) == i ==> b in slot)
  }

  ghost predicate TableOk<N>(slots: seq<seq<N>>, keyOf: map<N, nat>) {
    && |slots| == HASH_SLOTS
    && (forall i :: 0 <= i < HASH_SLOTS ==> SlotOk(slots[i], i, keyOf))
  }

  lemma LinkKeepsTable<N>(slots: seq<seq<N>>, keyOf: map<N, nat>, b: N, k: nat)
    requires TableOk(slots, keyOf) && b !in keyOf
    ensures TableOk(slots[Key2Idx(k) := slots[Key2Idx(k)] + [b]], keyOf[b := k])
  {
    var slots' := slots[Key2Idx(k) := slots[Key2Idx(k)] + [b]];
    forall i | 0 <= i < HASH_SLOTS ensures SlotOk(slots'[i], i, keyOf[b := k]) {
      assert SlotOk(slots[i], i, keyOf);
      assert (slots[i] + [b])[|slots[i]|] == b;
    }
  }

  lemma UnlinkKeepsTable<N>(slots: seq<seq<N>>, keyOf: map<N, nat>, b: N)
    requires TableOk(slots, keyOf) && b in keyOf
    ensures TableOk(slots[Key2Idx(keyOf[b]) := Without(slots[Key2Idx(keyOf[b])], b)], keyOf - {b})
  {
    var x := Key2Idx(keyOf[b]);
    var slots' := slots[x := Without(slots[x], b)];
    forall i | 0 <= i < HASH_SLOTS ensures SlotOk(slots'[i], i, keyOf - {b}) {
      assert SlotOk(slots[i], i, keyOf);
      WithoutUnlinks(slots[x], b);
    }
  }

  /** The hashed nodes hold the queues of their keys and the free ones hold nothing. */
  ghost predicate Stores<N, T>(view: map<N, seq<T>>, keyOf: map<N, nat>, free: seq<N>, queues: map<nat, seq<T>>) {
    && (forall b :: b in keyOf ==> b in view && keyOf[b] in queues && view[b] == queues[keyOf[b]])
    && (forall b :: b in free ==> b in view && b !in keyOf && view[b] == [])
  }

  /** Changing the queue of a hashed key. */
  lemma StoreChange<N, T>(view: map<N, seq<T>>, keyOf: map<N, nat>, bars: map<nat, N>, free: seq<N>,
                          queues: map<nat, seq<T>>, k: nat, q: seq<T>)
    requires Stores(view, keyOf, free, queues) && Inverse(bars, keyOf) && k in bars
    ensures Stores(view[bars[k] := q], keyOf, free, queues[k := q])
    ensures bars[k] in keyOf && bars[k] in view && k in queues && view[bars[k]] == queues[k]
  {
  }

  /** Hashing a node under a new key. */
  lemma StoreOpen<N, T>(view: map<N, seq<T>>, keyOf: map<N, nat>, bars: map<nat, N>, free: seq<N>,
                        queues: map<nat, seq<T>>, b: N, k: nat, q: seq<T>)
    requires Stores(view, keyOf, free, queues) && Inverse(bars, keyOf)
    requires k !in bars && b !in keyOf && b !in free
    ensures Stores(view[b := q], keyOf[b := k], free, queues[k := q])
  {
  }

  /** Freeing the node of a key. */
  lemma StoreRelease<N, T>(view: map<N, seq<T>>, keyOf: map<N, nat>, bars: map<nat, N>, free: seq<N>,
                           queues: map<nat, seq<T>>, k: nat)
    requires Stores(view, keyOf, free, queues) && Inverse(bars, keyOf) && k in bars
    ensures Stores(view[bars[k] := []], keyOf - {bars[k]}, [bars[k]] + free, queues - {k})
    ensures bars[k] in keyOf && bars[k] in view && k in queues && view[bars[k]] == queues[k] && bars[k] !in free
    ensures keyOf[bars[k]] == k
  {
  }
}

/**
  What the unit's table, free list, counter and logs say together, as plain values,
  and how each branch of `TaskNotify` and `ReplyNotify` keeps it.  Nodes are an
  arbitrary type `N`.
 */
module BarrierRefinement {
  import opened BarrierProtocol
  import opened BarrierTable

  /** `view` gives the queue of every node ever allocated; `s` is the protocol state
      after the notifications `events`. */
  datatype Shadow<!N(==)> = Shadow(
    bars: map<nat, N>, keyOf: map<N, nat>, view: map<N, seq<Task>>, s: State, events: seq<Event>)
  {
    function After(l: Limits, e: Event): Shadow<N> {
      this.(s := Step(l, s, e), events := events + [e])
    }
  }

  /** The unit's own fields. */
  datatype Fields<N> = Fields(
    slots: seq<seq<N>>, free: seq<N>, count: int, sent: seq<Task>, replied: seq<Task>, refused: seq<Task>)

  /** Hash slots and free list share out the nodes ever allocated. */
  ghost predicate Structure<N>(f: Fields<N>, g: Shadow<N>) {
    && TableOk(f.slots, g.keyOf)
    && Inverse(g.bars, g.keyOf)
    && Distinct(f.free)
    && f.count == |g.bars|
    && |g.view| == |g.bars| + |f.free|
  }

  /** The hashed nodes hold exactly the protocol's queues, the number of nodes allocated
      is the high-water mark of `count`, and the logs agree. */
  ghost predicate Refines<N>(f: Fields<N>, g: Shadow<N>) {
    && g.bars.Keys == g.s.queues.Keys
    && Stores(g.view, g.keyOf, f.free, g.s.queues)
    && |g.view| == g.s.peak
    && f.sent == g.s.sent && f.replied == g.s.replied && f.refused == g.s.refused
  }

  /** The protocol state is where a legal run ends. */
  ghost predicate Reached(l: Limits, events: seq<Event>, s: State) {
    LegalRun(l, Init, events) && s == Run(l, Init, events)
  }

  ghost predicate RepOk<N>(l: Limits, f: Fields<N>, g: Shadow<N>) {
    Structure(f, g) && Refines(f, g) && Reached(l, g.events, g.s)
  }

  ghost function Empty<N>(): Fields<N> { Fields(seq(HASH_SLOTS, _ => []), [], 0, [], [], []) }

  lemma EmptyOk<N>(l: Limits)
    ensures RepOk(l, Empty<N>(), Shadow(map[], map[], map[], Init, []))
  {
  }

  lemma ReachedExtends(l: Limits, events: seq<Event>, s: State, e: Event)
    requires Reached(l, events, s) && Enabled(s, e)
    ensures Reached(l, events + [e], Step(l, s, e))
  {
    RunExtends(l, Init, events, e);
  }

  lemma PassKeeps<N>(l: Limits, f: Fields<N>, g: Shadow<N>, t: Task)
    requires RepOk(l, f, g) && t !in g.s.arrived && t.Bypasses()
    ensures RepOk(l, f.(sent := f.sent + [t]), g.After(l, Arrive(t)))
  {
    hide TableOk, Inverse, Reached;
    ReachedExtends(l, g.events, g.s, Arrive(t));
  }

  lemma RefuseKeeps<N>(l: Limits, f: Fields<N>, g: Shadow<N>, t: Task)
    requires RepOk(l, f, g) && t !in g.s.arrived && !t.Bypasses()
    requires if t.key in g.s.queues then |g.s.queues[t.key]| >= l.maxKeyCount else f.count >= l.maxBarrier
    ensures RepOk(l, f.(replied := f.replied + [t], refused := f.refused + [t]), g.After(l, Arrive(t)))
  {
    hide TableOk, Inverse, Reached;
    ReachedExtends(l, g.events, g.s, Arrive(t));
    SameSize(g.bars, g.s.queues);
  }

  lemma JoinKeeps<N>(l: Limits, f: Fields<N>, g: Shadow<N>, t: Task, q: seq<Task>)
    requires RepOk(l, f, g) && t !in g.s.arrived && !t.Bypasses()
    requires t.key in g.bars && g.bars[t.key] in g.view && |g.view[g.bars[t.key]]| < l.maxKeyCount
    requires q == g.view[g.bars[t.key]] + [t]
    ensures RepOk(l, f, g.(view := g.view[g.bars[t.key] := q]).After(l, Arrive(t)))
  {
    hide TableOk, Inverse, Reached, Stores;
    ReachedExtends(l, g.events, g.s, Arrive(t));
    StoreChange(g.view, g.keyOf, g.bars, f.free, g.s.queues, t.key, q);
    assert g.view[g.bars[t.key] := q].Keys == g.view.Keys;
  }

  /** The node taken for a new key: the head of the free list, else one never seen before. */
  ghost predicate Taken<N>(f: Fields<N>, g: Shadow<N>, b: N, free: seq<N>) {
    if f.free == [] then free == [] && b !in g.view else f.free == [b] + free
  }

  lemma TakenCounts<N>(f: Fields<N>, g: Shadow<N>, b: N, free: seq<N>, k: nat, q: seq<Task>)
    requires Structure(f, g) && Refines(f, g) && Taken(f, g, b, free) && k !in g.bars
    ensures b !in g.keyOf && b !in free && Distinct(free)
    ensures Stores(g.view, g.keyOf, free, g.s.queues)
    ensures |g.view[b := q]| == |g.bars| + 1 + |free| == Max(|g.view|, |g.bars| + 1)
  {
    assert g.view[b := q].Keys == g.view.Keys + {b};
    if f.free != [] {
      assert b == f.free[0] && free == f.free[1..];
      forall i | 0 <= i < |free| ensures free[i] != b { assert free[i] == f.free[i + 1]; }
    }
  }

  lemma OpenKeeps<N>(l: Limits, f: Fields<N>, g: Shadow<N>, t: Task, b: N, free: seq<N>)
    requires RepOk(l, f, g) && t !in g.s.arrived && !t.Bypasses()
    requires t.key !in g.bars && f.count < l.maxBarrier && Taken(f, g, b, free)
    requires |f.slots| == HASH_SLOTS
    ensures RepOk(l,
      f.(slots := f.slots[Key2Idx(t.key) := f.slots[Key2Idx(t.key)] + [b]], free := free,
         count := f.count + 1, sent := f.sent + [t]),
      g.(bars := g.bars[t.key := b], keyOf := g.keyOf[b := t.key], view := g.view[b := [t]]).After(l, Arrive(t)))
  {
    hide TableOk, Inverse, Reached, Stores, Distinct, Taken, Step;
    ReachedExtends(l, g.events, g.s, Arrive(t));
    ArriveBranches(l, g.s, t);
    SameSize(g.bars, g.s.queues);
    TakenCounts(f, g, b, free, t.key, [t]);
    LinkKeepsTable(f.slots, g.keyOf, b, t.key);
    LinkKeepsInverse(g.bars, g.keyOf, b, t.key);
    StoreOpen(g.view, g.keyOf, g.bars, free, g.s.queues, b, t.key, [t]);
  }

  lemma PopFrontKeeps<N>(l: Limits, f: Fields<N>, g: Shadow<N>, t: Task, q: seq<Task>)
    requires RepOk(l, f, g) && t in g.s.inFlight && !t.Bypasses()
    requires t.key in g.bars && g.bars[t.key] in g.view
    requires g.view[g.bars[t.key]] == [t] + q && q != []
    ensures RepOk(l, f.(sent := f.sent + [q[0]], replied := f.replied + [t]),
                  g.(view := g.view[g.bars[t.key] := q]).After(l, Reply(t)))
  {
    hide TableOk, Inverse, Reached, Stores, Step;
    ReachedExtends(l, g.events, g.s, Reply(t));
    StoreChange(g.view, g.keyOf, g.bars, f.free, g.s.queues, t.key, q);
    assert g.s.queues[t.key][1..] == q;
    ReplyBranches(l, g.s, t);
    assert g.view[g.bars[t.key] := q].Keys == g.view.Keys;
  }

  lemma PopLastKeeps<N>(l: Limits, f: Fields<N>, g: Shadow<N>, t: Task)
    requires RepOk(l, f, g) && t in g.s.inFlight && !t.Bypasses()
    requires t.key in g.bars && g.bars[t.key] in g.view && g.view[g.bars[t.key]] == [t]
    requires |f.slots| == HASH_SLOTS
    ensures var b, i := g.bars[t.key], Key2Idx(t.key);
      RepOk(l,
        f.(slots := f.slots[i := Without(f.slots[i], b)], free := [b] + f.free,
           count := f.count - 1, replied := f.replied + [t]),
        g.(bars := g.bars - {t.key}, keyOf := g.keyOf - {b}, view := g.view[b := []]).After(l, Reply(t)))
  {
    hide TableOk, Inverse, Reached, Stores, Step;
    var b := g.bars[t.key];
    ReachedExtends(l, g.events, g.s, Reply(t));
    StoreRelease(g.view, g.keyOf, g.bars, f.free, g.s.queues, t.key);
    ReplyBranches(l, g.s, t);
    UnlinkKeepsTable(f.slots, g.keyOf, b);
    UnlinkKeepsInverse(g.bars, g.keyOf, b);
    assert g.view[b := []].Keys == g.view.Keys;
  }

  lemma PassBackKeeps<N>(l: Limits, f: Fields<N>, g: Shadow<N>, t: Task)
    requires RepOk(l, f, g) && t in g.s.inFlight && t.Bypasses()
    ensures RepOk(l, f.(replied := f.replied + [t]), g.After(l, Reply(t)))
  {
    hide TableOk, Inverse, Reached, Stores;
    ReachedExtends(l, g.events, g.s, Reply(t));
  }

  lemma FrontIsBack<N>(l: Limits, f: Fields<N>, g: Shadow<N>, t: Task)
    requires RepOk(l, f, g) && t in g.s.inFlight && !t.Bypasses()
    ensures t.key in g.s.queues && g.s.queues[t.key] != [] && g.s.queues[t.key][0] == t
  {
    ErrorBranchesUnreachable(l, g.events, t);
  }

  /** A node for the key exists exactly when the key has a queue, and it holds that queue. */
  lemma FindNode<N>(l: Limits, f: Fields<N>, g: Shadow<N>, k: nat)
    requires RepOk(l, f, g)
    ensures k in g.bars <==> k in g.s.queues
    ensures k in g.bars ==> g.bars[k] in g.keyOf && g.keyOf[g.bars[k]] == k
    ensures k in g.bars ==> g.bars[k] in g.view && g.view[g.bars[k]] == g.s.queues[k]
    ensures |f.slots| == HASH_SLOTS && SlotOk(f.slots[Key2Idx(k)], Key2Idx(k), g.keyOf)
    ensures forall b :: b in g.keyOf ==> b in g.view && (g.keyOf[b] == k ==> k in g.bars && g.bars[k] == b)
    ensures forall b :: b in f.free ==> b in g.view && g.view[b] == [] && b !in g.keyOf
  {
  }
}

/**
  `CBarrierUnit`: the barrier protocol on a chained hash table with a free list.
  Every method is proved against the protocol step it performs, so each theorem of
  `BarrierProtocol` holds of the unit in every run.
 */
module BarrierUnit {
  import opened BarrierProtocol
  import opened BarrierTable
  import opened BarrierRefinement

  /** `CBarrier`: a keyed task queue that is also a list node. */
  class Barrier {
    var key: nat
    var queue: seq<Task>

    constructor ()
      ensures key == 0 && queue == []
    {
      key, queue := 0, [];
    }
  }

  class Unit {
    const maxBarrier: int
    const maxKeyCount: int
    const hashSlot: array<seq<Barrier>>
    var freeList: seq<Barrier>
    var count: int
    var sent: seq<Task>      // handed to `output`, by TaskNotify or IndirectNotify
    var replied: seq<Task>   // `ReplyNotify` called on the task
    var refused: seq<Task>   // `SetError(-EC_SERVER_BUSY)` called on the task
    ghost var g: Shadow<Barrier>

    ghost function Lim(): Limits { Limits(maxBarrier, maxKeyCount) }

    ghost function Own(): Fields<Barrier>
      reads this, hashSlot
    {
      Fields(hashSlot[..], freeList, count, sent, replied, refused)
    }

    /** What the barriers hold is `g.view`. */
    ghost predicate Heap()
      reads this, g.view.Keys
    {
      && (forall b :: b in g.view ==> b.queue == g.view[b])
      && (forall b :: b in g.keyOf ==> b in g.view && b.key == g.keyOf[b])
    }

    ghost predicate Valid()
      reads this, hashSlot, g.view.Keys
    {
      RepOk(Lim(), Own(), g) && Heap()
    }

    constructor (max: int, maxkeycount: int)
      ensures Valid() && g.s == Init && g.events == [] && g.view == map[] && fresh(hashSlot)
      ensures maxBarrier == max && maxKeyCount == maxkeycount
    {
      maxBarrier, maxKeyCount := max, maxkeycount;
      hashSlot := new seq<Barrier>[HASH_SLOTS](_ => []);
      freeList, count := [], 0;
      sent, replied, refused := [], [], [];
      g := Shadow(map[], map[], map[], Init, []);
      new;
      hide RepOk;
      EmptyOk<Barrier>(Lim());
      assert hashSlot[..] == Empty<Barrier>().slots;
    }

    method GetBarrier(key: nat) returns (bar: Barrier?)
      requires Valid()
      ensures if key in g.s.queues then key in g.bars && bar == g.bars[key] && bar in g.view else bar == null
    {
      hide RepOk;
      FindNode(Lim(), Own(), g, key);
      var h := hashSlot[Key2Idx(key)];
      for p := 0 to |h|
        invariant forall q :: 0 <= q < p ==> h[q].key != key
      {
        if h[p].key == key {
          return h[p];
        }
      }
      bar := null;
    }

    /** The next barrier of the free list, or a new one. */
    method TakeBarrier(key: nat) returns (bar: Barrier, free: seq<Barrier>)
      requires Valid() && key !in g.bars
      ensures Taken(Own(), g, bar, free) && bar !in g.keyOf && bar.queue == []
      ensures bar in g.view || fresh(bar)
    {
      hide RepOk;
      FindNode(Lim(), Own(), g, key);
      if freeList == [] {
        bar := new Barrier();
        free := [];
      } else {
        bar, free := freeList[0], freeList[1..];
      }
    }

    /** Set the key of a barrier, hash it and put its first task on it. */
    method Hash(bar: Barrier, free: seq<Barrier>, cur: Task)
      requires hashSlot.Length == HASH_SLOTS && Heap() && bar !in g.keyOf && bar.queue == []
      modifies this`freeList, this`count, this`sent, this`g, hashSlot, bar
      ensures Own() == old(Own()).(
                slots := old(Own()).slots[Key2Idx(cur.key) := old(Own()).slots[Key2Idx(cur.key)] + [bar]],
                free := free, count := old(count) + 1, sent := old(sent) + [cur])
      ensures Heap()
      ensures g == old(g).(bars := old(g).bars[cur.key := bar], keyOf := old(g).keyOf[bar := cur.key],
                           view := old(g).view[bar := [cur]]).After(Lim(), Arrive(cur))
    {
      hide Step;
      ghost var slots := hashSlot[..];
      freeList, bar.key := free, cur.key;
      var i := Key2Idx(bar.key);
      hashSlot[i] := hashSlot[i] + [bar];
      assert hashSlot[..] == slots[i := slots[i] + [bar]];
      bar.queue := bar.queue + [cur];
      count := count + 1;
      sent := sent + [cur];
      g := g.(bars := g.bars[cur.key := bar], keyOf := g.keyOf[bar := cur.key],
              view := g.view[bar := [cur]]).After(Lim(), Arrive(cur));
    }

    /** `TaskNotify`, key without a barrier: hash a free or new one and send the task on. */
    method OpenBarrier(cur: Task)
      requires Valid() && cur !in g.s.arrived && !cur.Bypasses()
      requires cur.key !in g.bars && count < maxBarrier && hashSlot.Length == HASH_SLOTS
      modifies this, hashSlot, g.view.Keys
      ensures Valid() && g.events == old(g.events) + [Arrive(cur)]
      ensures fresh(g.view.Keys - old(g.view.Keys))
    {
      hide RepOk, Step, Taken, Heap;
      var bar, free := TakeBarrier(cur.key);
      OpenKeeps(Lim(), Own(), g, cur, bar, free);
      Hash(bar, free, cur);
    }

    /** `TaskNotify`, key with a barrier that has room: wait there. */
    method JoinBarrier(bar: Barrier, cur: Task)
      requires Valid() && cur !in g.s.arrived && !cur.Bypasses()
      requires cur.key in g.bars && bar == g.bars[cur.key] && bar in g.view && |bar.queue| < maxKeyCount
      modifies this`g, bar
      ensures Valid() && g.events == old(g.events) + [Arrive(cur)]
      ensures g.view.Keys == old(g.view.Keys)
    {
      hide RepOk, Step;
      FindNode(Lim(), Own(), g, cur.key);
      JoinKeeps(Lim(), Own(), g, cur, bar.queue + [cur]);
      bar.queue := bar.queue + [cur];
      g := g.(view := g.view[bar := bar.queue]).After(Lim(), Arrive(cur));
    }

    /** `TaskNotify`, task that is not tracked: hand it on. */
    method Pass(cur: Task)
      requires Valid() && cur !in g.s.arrived && cur.Bypasses()
      modifies this`sent, this`g
      ensures Valid() && g.events == old(g.events) + [Arrive(cur)] && g.view == old(g.view)
    {
      hide RepOk, Step;
      PassKeeps(Lim(), Own(), g, cur);
      sent, g := sent + [cur], g.After(Lim(), Arrive(cur));
    }

    /** `TaskNotify`, one of the limits reached: reply with EC_SERVER_BUSY. */
    method Refuse(cur: Task)
      requires Valid() && cur !in g.s.arrived && !cur.Bypasses()
      requires if cur.key in g.s.queues then |g.s.queues[cur.key]| >= maxKeyCount else count >= maxBarrier
      modifies this`refused, this`replied, this`g
      ensures Valid() && g.events == old(g.events) + [Arrive(cur)] && g.view == old(g.view)
    {
      hide RepOk, Step;
      RefuseKeeps(Lim(), Own(), g, cur);
      refused, replied, g := refused + [cur], replied + [cur], g.After(Lim(), Arrive(cur));
    }

    method TaskNotify(cur: Task)
      requires Valid() && cur !in g.s.arrived
      modifies this, hashSlot, g.view.Keys
      ensures Valid() && g.events == old(g.events) + [Arrive(cur)]
      ensures fresh(g.view.Keys - old(g.view.Keys))
    {
      hide RepOk, Step;
      if cur.Bypasses() {
        Pass(cur);
        return;
      }
      FindNode(Lim(), Own(), g, cur.key);
      var bar := GetBarrier(cur.key);
      if bar != null && |bar.queue| < maxKeyCount {
        JoinBarrier(bar, cur);
      } else if bar != null || count >= maxBarrier {
        Refuse(cur);
      } else {
        OpenBarrier(cur);
      }
    }

    method AttachFreeBarrier(bar: Barrier)
      requires hashSlot.Length == HASH_SLOTS
      modifies this`freeList, this`count, hashSlot
      ensures freeList == [bar] + old(freeList) && count == old(count) - 1
      ensures hashSlot[..] == old(hashSlot[..])[Key2Idx(bar.key) := Without(old(hashSlot[Key2Idx(bar.key)]), bar)]
    {
      var i := Key2Idx(bar.key);
      hashSlot[i] := Without(hashSlot[i], bar);
      freeList := [bar] + freeList;
      count := count - 1;
    }

    /** The branch of `ReplyNotify` where `cur` is the front of its queue. */
    method PopTask(bar: Barrier, cur: Task)
      requires Valid() && cur in g.s.inFlight && !cur.Bypasses()
      requires cur.key in g.bars && bar == g.bars[cur.key] && bar in g.view && bar.queue != [] && bar.queue[0] == cur
      modifies this, hashSlot, g.view.Keys
      ensures Valid() && g.events == old(g.events) + [Reply(cur)]
      ensures g.view.Keys == old(g.view.Keys)
    {
      hide RepOk, Step, Heap;
      if |bar.queue| == 1 {
        PopLast(bar, cur);
      } else {
        PopFront(bar, cur);
      }
    }

    /** Nothing waits behind `cur`: its barrier is free. */
    method PopLast(bar: Barrier, cur: Task)
      requires Valid() && cur in g.s.inFlight && !cur.Bypasses()
      requires cur.key in g.bars && bar == g.bars[cur.key] && bar in g.view
      requires |bar.queue| == 1 && bar.queue[0] == cur
      modifies this, hashSlot, bar
      ensures Valid() && g.events == old(g.events) + [Reply(cur)]
      ensures g.view.Keys == old(g.view.Keys)
    {
      hide RepOk, Step, Without, Heap;
      LastOne(bar, cur);
      PopLastKeeps(Lim(), Own(), g, cur);
      Unhash(bar, cur);
    }

    /** The barrier found for a key holds the key and its queue. */
    lemma LastOne(bar: Barrier, cur: Task)
      requires Valid() && cur.key in g.bars && bar == g.bars[cur.key] && bar in g.view
      requires |bar.queue| == 1 && bar.queue[0] == cur
      ensures bar.key == cur.key && g.view[bar] == [cur]
      ensures hashSlot.Length == HASH_SLOTS
    {
      hide RepOk;
      FindNode(Lim(), Own(), g, cur.key);
    }

    /** Pop the last task of a barrier and move the barrier to the free list. */
    method Unhash(bar: Barrier, cur: Task)
      requires hashSlot.Length == HASH_SLOTS && Heap() && bar in g.view && |bar.queue| == 1 && bar.key == cur.key
      modifies this`freeList, this`count, this`replied, this`g, hashSlot, bar`queue
      ensures var f, i := old(Own()), Key2Idx(cur.key);
        Own() == f.(slots := f.slots[i := Without(f.slots[i], bar)], free := [bar] + f.free,
                    count := f.count - 1, replied := f.replied + [cur])
      ensures Heap()
      ensures g == old(g).(bars := old(g).bars - {cur.key}, keyOf := old(g).keyOf - {bar},
                           view := old(g).view[bar := []]).After(Lim(), Reply(cur))
    {
      hide Step, Without;
      bar.queue := bar.queue[1..];
      replied := replied + [cur];
      AttachFreeBarrier(bar);
      g := g.(bars := g.bars - {cur.key}, keyOf := g.keyOf - {bar},
              view := g.view[bar := []]).After(Lim(), Reply(cur));
    }

    /** The task behind `cur` goes downstream. */
    method PopFront(bar: Barrier, cur: Task)
      requires Valid() && cur in g.s.inFlight && !cur.Bypasses()
      requires cur.key in g.bars && bar == g.bars[cur.key] && bar in g.view
      requires |bar.queue| > 1 && bar.queue[0] == cur
      modifies this, bar
      ensures Valid() && g.events == old(g.events) + [Reply(cur)]
      ensures g.view.Keys == old(g.view.Keys)
    {
      hide RepOk, Step;
      FindNode(Lim(), Own(), g, cur.key);
      PopFrontKeeps(Lim(), Own(), g, cur, bar.queue[1..]);
      bar.queue := bar.queue[1..];
      replied := replied + [cur];
      sent := sent + [bar.queue[0]];
      g := g.(view := g.view[bar := bar.queue]).After(Lim(), Reply(cur));
    }

    method ReplyNotify(cur: Task)
      requires Valid() && cur in g.s.inFlight
      modifies this, hashSlot, g.view.Keys
      ensures Valid() && g.events == old(g.events) + [Reply(cur)]
      ensures g.view.Keys == old(g.view.Keys)
    {
      hide RepOk, Step;
      if cur.Bypasses() {
        PassBackKeeps(Lim(), Own(), g, cur);
        replied, g := replied + [cur], g.After(Lim(), Reply(cur));
        return;
      }
      FrontIsBack(Lim(), Own(), g, cur);
      FindNode(Lim(), Own(), g, cur.key);
      var bar := GetBarrier(cur.key);
      if bar == null {
        assert false;                    // "return task not in barrier"
      } else if bar.queue[0] == cur {
        PopTask(bar, cur);
      } else {
        assert false;                    // "return task not barrier header"
      }
    }
  }
}
