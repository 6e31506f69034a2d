/** What a run of calls on the cache of seen.c remembers: a window of sixty seconds, cut to the
    newest thousand adds, told by the history of all adds. */
module SeenWindow {
  import opened SeenSpec
  import opened Pigeonhole

  datatype Op = Check(id: Id, time: int) | Add(id: Id, time: int) | Prune(time: int)

  datatype Rec = Rec(id: Id, time: int)

  // The cache, every add so far, which add each slot last took, and the adds that were evicted.
  datatype Hist = Hist(cache: Cache, log: seq<Rec>, src: seq<nat>, evicted: set<nat>)

  ghost function Start(): Hist { Hist(Empty(), [], seq(CAPACITY, i => 0), {}) }

  ghost function Step(h: Hist, op: Op): (h': Hist)
    requires Valid(h.cache) && |h.src| == CAPACITY
    ensures Valid(h'.cache) && |h'.src| == CAPACITY
  {
    match op
    case Check(id, t) => ValidKept(h.cache, id, t); h.(cache := Checked(h.cache, id, t))
    case Prune(t) => ValidKept(h.cache, NO_ID, t); h.(cache := Pruned(h.cache, t))
    case Add(id, t) =>
      ValidKept(h.cache, id, t);
      var i := SlotFor(h.cache, t);
      Hist(Added(h.cache, id, t), h.log + [Rec(id, t)], h.src[i := |h.log|],
           if Full(h.cache, t) then h.evicted + {h.src[i]} else h.evicted)
  }

  ghost function Run(ops: seq<Op>): (h: Hist)
    ensures Valid(h.cache) && |h.src| == CAPACITY
  {
    if ops == [] then Start() else Step(Run(ops[..|ops| - 1]), ops[|ops| - 1])
  }

  // The clock never goes back.
  ghost predicate Monotone(ops: seq<Op>)
  {
    forall i, j :: 0 <= i < j < |ops| ==> ops[i].time <= ops[j].time
  }

  ghost predicate Young(h: Hist, k: int, now: int)
  {
    0 <= k < |h.log| && now - h.log[k].time <= TTL_SEC
  }

  ghost predicate Holds(h: Hist, i: int, k: int)
  {
    0 <= i < |h.cache.slots| && i < |h.src| && h.cache.slots[i].active && h.src[i] == k
  }

  ghost predicate Kept(h: Hist, k: int) { exists i :: Holds(h, i, k) }

  ghost predicate SlotsAgree(h: Hist)
    requires |h.cache.slots| == |h.src| == CAPACITY
  {
    && (forall i :: 0 <= i < CAPACITY && h.cache.slots[i].active ==>
         h.src[i] < |h.log| && h.src[i] !in h.evicted
         && h.log[h.src[i]] == Rec(h.cache.slots[i].id, h.cache.slots[i].timestamp))
    && (forall i, j :: 0 <= i < j < CAPACITY && h.cache.slots[i].active && h.cache.slots[j].active ==>
      h.src[i] != h.src[j])
  }

  ghost predicate LogOrdered(h: Hist, now: int)
  {
    && (forall k, l :: 0 <= k < l < |h.log| ==> h.log[k].time <= h.log[l].time)
    && (forall k :: 0 <= k < |h.log| ==> h.log[k].time <= now)
  }

  // A lost add is no newer than any that a slot still holds.
  ghost predicate LostAreOldest(h: Hist)
    requires |h.cache.slots| == CAPACITY
  {
    forall k :: k in h.evicted ==>
      (k < |h.log| && forall i :: 0 <= i < CAPACITY && h.cache.slots[i].active ==>
        h.log[k].time <= h.cache.slots[i].timestamp)
  }

  ghost predicate Inv(h: Hist, now: int)
  {
    && Valid(h.cache) && |h.src| == CAPACITY
    && SlotsAgree(h) && LogOrdered(h, now) && LostAreOldest(h)
    && forall k :: Young(h, k, now) && k !in h.evicted ==> Kept(h, k)
  }

  lemma {:induction false} LookStep(h: Hist, op: Op, now: int)
    requires Inv(h, now) && now <= op.time && !op.Add?
    ensures Inv(Step(h, op), op.time)
  {
    var h' := Step(h, op);
    forall k | Young(h', k, op.time) && k !in h'.evicted
      ensures Kept(h', k)
    {
      assert Young(h, k, now);
      var i :| Holds(h, i, k);
      assert Holds(h', i, k);
    }
  }

  // What an add does, told by the slot it takes.
  ghost predicate TookSlot(h: Hist, h': Hist, r: Rec, i: nat)
    requires |h.cache.slots| == |h.src| == CAPACITY
  {
    && i < CAPACITY && Valid(h'.cache)
    && h'.cache.slots == h.cache.slots[i := Entry(r.id, r.time, true)]
    && h'.log == h.log + [r] && h'.src == h.src[i := |h.log|]
    && if Live(h.cache.slots[i], r.time)
       then h'.evicted == h.evicted + {h.src[i]}
            && forall k :: 0 <= k < CAPACITY ==> h.cache.slots[i].timestamp <= h.cache.slots[k].timestamp
       else h'.evicted == h.evicted
  }

  lemma AddTakes(h: Hist, id: Id, now: int)
    requires Valid(h.cache) && |h.src| == CAPACITY
    ensures TookSlot(h, Step(h, Add(id, now)), Rec(id, now), SlotFor(h.cache, now))
  {
    ValidKept(h.cache, id, now);
    hide Free, Oldest, Valid;
  }

  lemma {:induction false} TookSlots(h: Hist, h': Hist, r: Rec, i: nat, now: int)
    requires Inv(h, now) && now <= r.time && TookSlot(h, h', r, i)
    ensures SlotsAgree(h') && LogOrdered(h', r.time)
  {
    assert forall k :: k in h.evicted ==> k < |h.log|;
  }

  lemma {:induction false} TookLost(h: Hist, h': Hist, r: Rec, i: nat, now: int)
    requires Inv(h, now) && now <= r.time && TookSlot(h, h', r, i)
    ensures LostAreOldest(h')
  {
    forall k | k in h'.evicted
      ensures k < |h'.log|
      ensures forall j :: 0 <= j < CAPACITY && h'.cache.slots[j].active ==>
        h'.log[k].time <= h'.cache.slots[j].timestamp
    {
      if k !in h.evicted {
        assert k == h.src[i] && h.log[k].time == h.cache.slots[i].timestamp;
      }
      assert h'.log[k] == h.log[k];
    }
  }

  lemma {:induction false} TookKept(h: Hist, h': Hist, r: Rec, i: nat, now: int, k: nat)
    requires Inv(h, now) && now <= r.time && TookSlot(h, h', r, i)
    requires Young(h', k, r.time) && k !in h'.evicted
    ensures Kept(h', k)
  {
    hide LostAreOldest;
    if k == |h.log| {
      assert Holds(h', i, k);
    } else {
      assert h'.log[k] == h.log[k];
      assert Young(h, k, now);
      var j :| Holds(h, j, k);
      assert Live(h.cache.slots[j], r.time);
      assert j != i;
      assert Holds(h', j, k);
    }
  }

  lemma {:induction false} AddStep(h: Hist, op: Op, now: int)
    requires Inv(h, now) && now <= op.time && op.Add?
    ensures Inv(Step(h, op), op.time)
  {
    var h', i, r := Step(h, op), SlotFor(h.cache, op.time), Rec(op.id, op.time);
    AddTakes(h, op.id, op.time);
    hide Step, TookSlot, SlotFor, Young, Kept;
    TookSlots(h, h', r, i, now);
    TookLost(h, h', r, i, now);
    forall k | Young(h', k, op.time) && k !in h'.evicted
      ensures Kept(h', k)
    {
      TookKept(h, h', r, i, now, k);
    }
  }

  lemma {:induction false} RunInv(ops: seq<Op>, now: int)
    requires Monotone(ops) && (ops != [] ==> ops[|ops| - 1].time <= now)
    ensures Inv(Run(ops), now)
  {
    if ops == [] {
      assert forall i :: 0 <= i < CAPACITY ==> !Start().cache.slots[i].active;
    } else {
      var op, rest := ops[|ops| - 1], ops[..|ops| - 1];
      RunInv(rest, op.time);
      if op.Add? {
        AddStep(Run(rest), op, op.time);
      } else {
        LookStep(Run(rest), op, op.time);
      }
      Later(Run(ops), op.time, now);
    }
  }

  lemma Later(h: Hist, now: int, later: int)
    requires Inv(h, now) && now <= later
    ensures Inv(h, later)
  {
    forall k | Young(h, k, later) && k !in h.evicted
      ensures Kept(h, k)
    {
      assert Young(h, k, now);
    }
  }

  /** On every run with a monotone clock a check answers "seen" exactly when the id was added at
      most sixty seconds ago and that add has not been evicted. */
  lemma {:induction false} CheckExact(ops: seq<Op>, id: Id, now: int)
    requires Monotone(ops) && (ops != [] ==> ops[|ops| - 1].time <= now)
    ensures var h := Run(ops);
      Seen(h.cache, id, now) <==> exists k :: Young(h, k, now) && h.log[k].id == id && k !in h.evicted
  {
    var h := Run(ops);
    RunInv(ops, now);
    if Seen(h.cache, id, now) {
      var i :| 0 <= i < h.cache.count && Matches(h.cache.slots[i], id, now);
      assert Young(h, h.src[i], now);
    }
    if exists k :: Young(h, k, now) && h.log[k].id == id && k !in h.evicted {
      var k :| Young(h, k, now) && h.log[k].id == id && k !in h.evicted;
      assert Kept(h, k);
      var i :| Holds(h, i, k);
      assert Matches(h.cache.slots[i], id, now);
    }
  }

  /** Eviction happens only with a thousand live entries, and what is lost is no newer than anything retained. */
  lemma {:induction false} EvictionOldest(ops: seq<Op>, id: Id, now: int, k: nat)
    requires Monotone(ops) && (ops != [] ==> ops[|ops| - 1].time <= now)
    requires k in Step(Run(ops), Add(id, now)).evicted && k !in Run(ops).evicted
    ensures var h := Run(ops);
      && (forall i :: 0 <= i < CAPACITY ==> Live(h.cache.slots[i], now))
      && k < |h.log|
      && (forall l :: Young(h, l, now) && l !in h.evicted ==> h.log[k].time <= h.log[l].time)
  {
    hide Run, Step, Inv, SlotsAgree;
    var h := Run(ops);
    RunInv(ops, now);
    EvictedByAdd(h, id, now, k);
    InvParts(h, now);
    forall l | Young(h, l, now) && l !in h.evicted
      ensures h.log[k].time <= h.log[l].time
    {
      assert Kept(h, l);
      var j :| Holds(h, j, l);
    }
  }

  lemma {:induction false} InvParts(h: Hist, now: int)
    requires Inv(h, now)
    ensures forall l :: Young(h, l, now) && l !in h.evicted ==> Kept(h, l)
    ensures forall j, l :: Holds(h, j, l) ==> l < |h.log| && h.log[l].time == h.cache.slots[j].timestamp
  {
  }

  lemma {:induction false} EvictedByAdd(h: Hist, id: Id, now: int, k: nat)
    requires Inv(h, now) && k in Step(h, Add(id, now)).evicted && k !in h.evicted
    ensures forall i :: 0 <= i < CAPACITY ==> Live(h.cache.slots[i], now)
    ensures k < |h.log| && forall i :: 0 <= i < CAPACITY ==> h.log[k].time <= h.cache.slots[i].timestamp
  {
    assert Full(h.cache, now) && k == h.src[SlotFor(h.cache, now)];
  }

  // ---- the log is the adds of the run ----

  function Adds(ops: seq<Op>): seq<Rec>
  {
    if ops == [] then []
    else
      var op := ops[|ops| - 1];
      Adds(ops[..|ops| - 1]) + if op.Add? then [Rec(op.id, op.time)] else []
  }

  lemma {:induction false} LogIsAdds(ops: seq<Op>)
    ensures Run(ops).log == Adds(ops)
  {
    if ops != [] {
      LogIsAdds(ops[..|ops| - 1]);
    }
  }

  // A sequence of operations none of which is later than t.
  ghost predicate Until(ops: seq<Op>, t: int)
  {
    Monotone(ops) && forall i :: 0 <= i < |ops| ==> ops[i].time <= t
  }

  lemma {:induction false} UntilMore(ops: seq<Op>, op: Op, t: int)
    requires Until(ops, t) && t <= op.time
    ensures Until(ops + [op], op.time)
  {
    assert forall i :: 0 <= i < |ops| ==> (ops + [op])[i] == ops[i];
  }

  lemma {:induction false} UntilLater(ops: seq<Op>, t: int, u: int)
    requires Until(ops, t) && t <= u
    ensures Until(ops, u)
  {
  }

  lemma {:induction false} RunMore(ops: seq<Op>, op: Op)
    ensures Run(ops + [op]) == Step(Run(ops), op)
  {
    assert (ops + [op])[..|ops|] == ops;
  }

  lemma {:induction false} AddsAppend(ops: seq<Op>, op: Op)
    ensures Adds(ops + [op]) == Adds(ops) + if op.Add? then [Rec(op.id, op.time)] else []
  {
    assert (ops + [op])[..|ops|] == ops;
  }

  // ---- when the slots hold the newest thousand ----

  // Young adds are evicted exactly when a thousand newer ones exist.
  ghost predicate Newest(h: Hist, now: int)
  {
    forall k :: Young(h, k, now) ==> (k in h.evicted <==> k < |h.log| - CAPACITY)
  }

  // An add that finds every slot live overwrites the oldest of the last thousand adds. With several
  // adds in one second the slot with the smallest timestamp may hold a newer one.
  ghost predicate TakesOldest(h: Hist, op: Op)
    requires |h.cache.slots| == |h.src| == CAPACITY
  {
    op.Add? && Full(h.cache, op.time) ==> h.src[SlotFor(h.cache, op.time)] == |h.log| - CAPACITY
  }

  ghost predicate OldestFirst(ops: seq<Op>)
  {
    ops == [] || (OldestFirst(ops[..|ops| - 1]) && TakesOldest(Run(ops[..|ops| - 1]), ops[|ops| - 1]))
  }

  lemma InvSizes(h: Hist, now: int)
    requires Inv(h, now)
    ensures Valid(h.cache) && |h.src| == CAPACITY && |h.cache.slots| == CAPACITY
  {
  }

  // Every slot live: their sources are different young adds.
  lemma LiveSources(h: Hist, now: int)
    requires Inv(h, now) && Full(h.cache, now)
    ensures |h.src| == CAPACITY && Distinct(h.src)
    ensures forall j :: 0 <= j < CAPACITY ==> Young(h, h.src[j], now) && h.src[j] !in h.evicted
  {
    hide LogOrdered, LostAreOldest;
    forall j | 0 <= j < CAPACITY
      ensures Young(h, h.src[j], now) && h.src[j] !in h.evicted
    {
      assert Live(h.cache.slots[j], now);
    }
    forall i, j | 0 <= i < j < CAPACITY
      ensures h.src[i] != h.src[j]
    {
      assert Live(h.cache.slots[i], now) && Live(h.cache.slots[j], now);
    }
  }

  // They are the newest thousand adds.
  lemma FullSources(h: Hist, now: int)
    requires Inv(h, now) && Newest(h, now) && Full(h.cache, now)
    ensures |h.src| == CAPACITY <= |h.log| && Distinct(h.src)
    ensures forall j :: 0 <= j < CAPACITY ==> Young(h, h.src[j], now) && |h.log| - CAPACITY <= h.src[j] < |h.log|
  {
    hide Inv, Full;
    LiveSources(h, now);
    AtMost(h.src, 0, |h.log|);
  }

  // Some slot holds the oldest of them.
  lemma OldestHeld(h: Hist, now: int) returns (j: nat)
    requires Inv(h, now) && Newest(h, now) && Full(h.cache, now)
    ensures |h.src| == CAPACITY <= |h.log| && j < CAPACITY && h.src[j] == |h.log| - CAPACITY
    ensures Young(h, |h.log| - CAPACITY, now)
  {
    hide Inv, Newest, Full, Young;
    FullSources(h, now);
    AllTaken(h.src, |h.log| - CAPACITY, |h.log| - CAPACITY);
    j :| 0 <= j < CAPACITY && h.src[j] == |h.log| - CAPACITY;
  }

  // The slots of a thousand kept adds.
  lemma Holders(h: Hist, a: int) returns (f: seq<int>)
    requires forall k :: a <= k < a + CAPACITY ==> Kept(h, k)
    ensures |f| == CAPACITY && forall j :: 0 <= j < CAPACITY ==> Holds(h, f[j], a + j)
  {
    f := [];
    while |f| < CAPACITY
      invariant |f| <= CAPACITY
      invariant forall j :: 0 <= j < |f| ==> Holds(h, f[j], a + j)
    {
      assert Kept(h, a + |f|);
      var i :| Holds(h, i, a + |f|);
      f := f + [i];
    }
  }

  // A thousand adds that are young and not evicted fill every slot.
  lemma YoungFills(h: Hist, now: int)
    requires Inv(h, now) && |h.log| >= CAPACITY && Young(h, |h.log| - CAPACITY, now)
    requires forall k :: |h.log| - CAPACITY <= k < |h.log| ==> k !in h.evicted
    ensures forall s :: 0 <= s < CAPACITY ==> Live(h.cache.slots[s], now)
  {
    var n := |h.log|;
    var a := n - CAPACITY;
    forall k | a <= k < n
      ensures Young(h, k, now) && Kept(h, k)
    {
      assert h.log[a].time <= h.log[k].time;
      assert Young(h, k, now);
    }
    var f := Holders(h, a);
    forall s | 0 <= s < CAPACITY
      ensures Live(h.cache.slots[s], now)
    {
      AllTaken(f, 0, s);
      var j :| 0 <= j < CAPACITY && f[j] == s;
      assert Holds(h, s, a + j) && Young(h, a + j, now);
    }
  }

  lemma AllLiveIsFull(c: Cache, now: int)
    requires forall s :: 0 <= s < |c.slots| ==> Live(c.slots[s], now)
    ensures Full(c, now)
  {
  }

  // With a slot to spare, the add that leaves the newest thousand has expired.
  lemma SpareExpired(h: Hist, now: int)
    requires Inv(h, now) && Newest(h, now) && |h.log| >= CAPACITY && !Full(h.cache, now)
    ensures !Young(h, |h.log| - CAPACITY, now)
  {
    var n := |h.log|;
    if Young(h, n - CAPACITY, now) {
      forall k | n - CAPACITY <= k < n
        ensures k !in h.evicted
      {
        assert h.log[n - CAPACITY].time <= h.log[k].time;
        assert Young(h, k, now);
      }
      YoungFills(h, now);
      AllLiveIsFull(h.cache, now);
    }
  }

  /** One step keeps the newest thousand exactly when its eviction, if any, takes the oldest of them. */
  lemma {:induction false} NewestStep(h: Hist, op: Op, now: int)
    requires Inv(h, now) && Newest(h, now) && now <= op.time
    ensures Newest(Step(h, op), op.time) <==> TakesOldest(h, op)
  {
    var h' := Step(h, op);
    Later(h, now, op.time);
    assert Newest(h, op.time) by {
      assert forall k :: Young(h, k, op.time) ==> Young(h, k, now);
    }
    if op.Add? {
      if Full(h.cache, op.time) {
        EvictionStep(h, h', op);
      } else {
        if |h.log| >= CAPACITY {
          SpareExpired(h, op.time);
        }
        NewestAfterAdd(h, h', op);
      }
    } else {
      assert forall k :: Young(h', k, op.time) ==> Young(h, k, op.time);
    }
  }

  lemma {:induction false} EvictionStep(h: Hist, h': Hist, op: Op)
    requires Inv(h, op.time) && Newest(h, op.time) && op.Add? && Full(h.cache, op.time) && h' == Step(h, op)
    ensures Newest(h', op.time) <==> TakesOldest(h, op)
  {
    FullSources(h, op.time);
    var m := h.src[SlotFor(h.cache, op.time)];
    if m == |h.log| - CAPACITY {
      NewestAfterAdd(h, h', op);
    } else {
      hide Full, SlotFor, Added, Inv;
      assert Young(h, m, op.time) && h'.log[m] == h.log[m];
      assert Young(h', m, op.time) && m in h'.evicted;
    }
  }

  lemma {:induction false} NewestAfterAdd(h: Hist, h': Hist, op: Op)
    requires Inv(h, op.time) && Newest(h, op.time) && op.Add? && h' == Step(h, op)
    requires Full(h.cache, op.time) ==> |h.log| >= CAPACITY && h.src[SlotFor(h.cache, op.time)] == |h.log| - CAPACITY
    requires !Full(h.cache, op.time) && |h.log| >= CAPACITY ==> !Young(h, |h.log| - CAPACITY, op.time)
    ensures Newest(h', op.time)
  {
    hide Full, SlotFor, Added;
    assert forall k :: k in h.evicted ==> k < |h.log|;
    forall k | Young(h', k, op.time)
      ensures k in h'.evicted <==> k < |h'.log| - CAPACITY
    {
      if k < |h.log| {
        assert h'.log[k] == h.log[k];
        assert Young(h, k, op.time);
      }
    }
  }

  lemma {:induction false} RunNewest(ops: seq<Op>, now: int)
    requires Monotone(ops) && (ops != [] ==> ops[|ops| - 1].time <= now)
    requires OldestFirst(ops)
    ensures Newest(Run(ops), now)
  {
    if ops != [] {
      hide Inv, Newest, Step;
      var op, rest := ops[|ops| - 1], ops[..|ops| - 1];
      RunNewest(rest, op.time);
      RunInv(rest, op.time);
      NewestStep(Run(rest), op, op.time);
      NewestLater(Run(ops), op.time, now);
    }
  }

  lemma NewestLater(h: Hist, now: int, later: int)
    requires Newest(h, now) && now <= later
    ensures Newest(h, later)
  {
    assert forall k :: Young(h, k, later) ==> Young(h, k, now);
  }

  // Unexpired, and among the last thousand adds.
  ghost predicate InWindow(log: seq<Rec>, id: Id, now: int)
  {
    exists k :: 0 <= k < |log| && |log| - CAPACITY <= k && log[k].id == id && now - log[k].time <= TTL_SEC
  }

  /** If every eviction takes the oldest of the last thousand adds, "seen" means unexpired and among them. */
  lemma {:induction false} CheckIsWindow(ops: seq<Op>, id: Id, now: int)
    requires Monotone(ops) && (ops != [] ==> ops[|ops| - 1].time <= now)
    requires OldestFirst(ops)
    ensures Seen(Run(ops).cache, id, now) <==> InWindow(Adds(ops), id, now)
  {
    var h := Run(ops);
    LogIsAdds(ops);
    RunNewest(ops, now);
    CheckExact(ops, id, now);
    if InWindow(h.log, id, now) {
      var k :| 0 <= k < |h.log| && |h.log| - CAPACITY <= k && h.log[k].id == id && now - h.log[k].time <= TTL_SEC;
      assert Young(h, k, now);
    }
  }

  // ---- by the times of the adds alone ----

  // The add at l comes within sixty seconds of the add a thousand before it.
  ghost predicate Crowded(log: seq<Rec>, l: int)
  {
    CAPACITY <= l < |log| && log[l].time - log[l - CAPACITY].time <= TTL_SEC
  }

  // That add and the next one share their second.
  ghost predicate Tied(log: seq<Rec>, l: int)
  {
    Crowded(log, l) && log[l - CAPACITY].time == log[l - CAPACITY + 1].time
  }

  ghost predicate Sparse(log: seq<Rec>) { forall l :: !Crowded(log, l) }

  ghost predicate Spread(log: seq<Rec>) { forall l :: !Tied(log, l) }

  /** Evictions take the oldest add whenever that add is alone in its second among those retained. */
  lemma {:induction false} SpreadOldestFirst(ops: seq<Op>)
    requires Monotone(ops) && Spread(Adds(ops))
    ensures OldestFirst(ops)
  {
    if ops != [] {
      var op, rest := ops[|ops| - 1], ops[..|ops| - 1];
      SpreadBefore(ops);
      SpreadOldestFirst(rest);
      if op.Add? && Full(Run(rest).cache, op.time) {
        hide Inv, Newest, Full, SlotFor, Spread, Tied;
        RunInv(rest, op.time);
        RunNewest(rest, op.time);
        LogIsAdds(rest);
        SpreadTakesOldest(Run(rest), op, Adds(ops));
      }
    }
  }

  lemma SpreadBefore(ops: seq<Op>)
    requires ops != [] && Spread(Adds(ops))
    ensures Spread(Adds(ops[..|ops| - 1]))
  {
    var log, log' := Adds(ops[..|ops| - 1]), Adds(ops);
    forall l
      ensures !Tied(log, l)
    {
      if Tied(log, l) {
        assert Tied(log', l);
      }
    }
  }

  lemma {:induction false} SpreadTakesOldest(h: Hist, op: Op, log': seq<Rec>)
    requires Inv(h, op.time) && Newest(h, op.time) && op.Add? && Full(h.cache, op.time)
    requires log' == h.log + [Rec(op.id, op.time)] && Spread(log')
    ensures TakesOldest(h, op)
  {
    hide Inv, Full, SlotFor, Newest, Spread;
    InvSizes(h, op.time);
    var n, i := |h.log|, SlotFor(h.cache, op.time);
    FullSources(h, op.time);
    var j := OldestHeld(h, op.time);
    assert log'[n - CAPACITY] == h.log[n - CAPACITY] && log'[n - CAPACITY + 1] == h.log[n - CAPACITY + 1];
    SpreadAt(log', n);
    SourceTimes(h, op.time, i);
    SourceTimes(h, op.time, j);
    if h.src[i] > n - CAPACITY {
      LogTimes(h, op.time, n - CAPACITY, n - CAPACITY + 1);
      LogTimes(h, op.time, n - CAPACITY + 1, h.src[i]);
    }
  }

  lemma SpreadAt(log: seq<Rec>, l: int)
    requires Spread(log)
    ensures !Tied(log, l)
  {
  }

  lemma LogTimes(h: Hist, now: int, k: nat, l: nat)
    requires Inv(h, now) && k <= l < |h.log|
    ensures h.log[k].time <= h.log[l].time <= now
  {
  }

  lemma SourceTimes(h: Hist, now: int, i: nat)
    requires Inv(h, now) && Full(h.cache, now) && i < CAPACITY
    ensures |h.src| == CAPACITY && h.src[i] < |h.log| && h.cache.slots[i].timestamp == h.log[h.src[i]].time
  {
    assert Live(h.cache.slots[i], now);
  }

  /** Nothing is ever evicted exactly when no add comes within sixty seconds of the one a thousand before it. */
  lemma {:induction false} NoEvictionIff(ops: seq<Op>)
    requires Monotone(ops)
    ensures Run(ops).evicted == {} <==> Sparse(Adds(ops))
  {
    if ops != [] {
      var op, rest := ops[|ops| - 1], ops[..|ops| - 1];
      var h := Run(rest);
      NoEvictionIff(rest);
      LogIsAdds(rest);
      RunInv(rest, op.time);
      if op.Add? {
        SparseBefore(h.log, Rec(op.id, op.time));
        assert h.evicted <= Run(ops).evicted;
        if h.evicted == {} {
          FullIffCrowded(h, op.time, op.id);
        }
      } else {
        assert Adds(rest) + [] == Adds(rest);
      }
    }
  }

  lemma SparseBefore(log: seq<Rec>, r: Rec)
    ensures Sparse(log + [r]) <==> Sparse(log) && !Crowded(log + [r], |log|)
  {
    var log' := log + [r];
    forall l | l != |log|
      ensures Crowded(log', l) <==> Crowded(log, l)
    {
    }
  }

  lemma {:induction false} FullIffCrowded(h: Hist, now: int, id: Id)
    requires Inv(h, now) && h.evicted == {}
    ensures Full(h.cache, now) <==> Crowded(h.log + [Rec(id, now)], |h.log|)
  {
    var n, log' := |h.log|, h.log + [Rec(id, now)];
    if Full(h.cache, now) {
      LiveSources(h, now);
      AtMost(h.src, 0, n);
      var j := EarlySource(h.src, n);
      assert Young(h, h.src[j], now);
      assert h.log[h.src[j]].time <= h.log[n - CAPACITY].time;
    } else if Crowded(log', n) {
      assert Young(h, n - CAPACITY, now);
      YoungFills(h, now);
      AllLiveIsFull(h.cache, now);
    }
  }

  // One of a thousand different numbers below n is at most n - 1000.
  lemma EarlySource(src: seq<nat>, n: nat) returns (j: nat)
    requires Distinct(src) && |src| == CAPACITY <= n && forall i :: 0 <= i < |src| ==> src[i] < n
    ensures j < CAPACITY && src[j] <= n - CAPACITY
  {
    if forall i :: 0 <= i < |src| ==> n - CAPACITY + 1 <= src[i] {
      AtMost(src, n - CAPACITY + 1, n);
      assert false;
    }
    j :| 0 <= j < |src| && src[j] <= n - CAPACITY;
  }
}
