/** The cache evicts by time of insertion. When that is the least recently used entry. */
module SeenRecency {
  import opened SeenSpec
  import opened SeenWindow
  import opened Pigeonhole

  // A query that found the id.
  ghost predicate HitAt(ops: seq<Op>, i: int, id: Id)
  {
    0 <= i < |ops| && ops[i].Check? && ops[i].id == id && Seen(Run(ops[..i]).cache, id, ops[i].time)
  }

  // The add k was made, or its id was found since, at time t.
  ghost predicate Used(ops: seq<Op>, k: int, t: int)
  {
    var log := Run(ops).log;
    0 <= k < |log|
    && (t == log[k].time || (t >= log[k].time && exists i :: HitAt(ops, i, log[k].id) && ops[i].time == t))
  }

  ghost predicate UsedSince(ops: seq<Op>, k: int, t: int) { exists u :: Used(ops, k, u) && u >= t }

  // Add k was last used no later than add l.
  ghost predicate NoLater(ops: seq<Op>, k: int, l: int)
  {
    forall t :: Used(ops, k, t) ==> UsedSince(ops, l, t)
  }

  ghost predicate Retained(h: Hist, l: int, now: int) { Young(h, l, now) && l !in h.evicted }

  ghost predicate LeastRecent(ops: seq<Op>, k: int, now: int)
  {
    forall l :: Retained(Run(ops), l, now) ==> NoLater(ops, k, l)
  }

  // No hit on k came later than the last use of another entry.
  ghost predicate HitsOutdone(ops: seq<Op>, k: int, now: int)
  {
    var h := Run(ops);
    0 <= k < |h.log| ==>
      forall i, l :: HitAt(ops, i, h.log[k].id) && ops[i].time >= h.log[k].time && Retained(h, l, now) ==>
        UsedSince(ops, l, ops[i].time)
  }

  /** The entry evicted is the least recently used one exactly when every entry retained was used since the
      last hit on it; without hits it always is. */
  lemma {:induction false} LruIff(ops: seq<Op>, id: Id, now: int, k: nat)
    requires Monotone(ops) && (ops != [] ==> ops[|ops| - 1].time <= now)
    requires k in Step(Run(ops), Add(id, now)).evicted && k !in Run(ops).evicted
    ensures k < |Run(ops).log|
    ensures LeastRecent(ops, k, now) <==> HitsOutdone(ops, k, now)
    ensures (forall i :: !HitAt(ops, i, Run(ops).log[k].id)) ==> LeastRecent(ops, k, now)
  {
    hide Run, Step, Young;
    EvictionOldest(ops, id, now, k);
    if HitsOutdone(ops, k, now) {
      OutdoneIsLeast(ops, k, now);
    }
    if LeastRecent(ops, k, now) {
      var added := Run(ops).log[k];
      forall i, l | HitAt(ops, i, added.id) && ops[i].time >= added.time && Retained(Run(ops), l, now)
        ensures UsedSince(ops, l, ops[i].time)
      {
        assert Used(ops, k, ops[i].time);
        assert NoLater(ops, k, l);
      }
    }
  }

  lemma {:induction false} OutdoneIsLeast(ops: seq<Op>, k: nat, now: int)
    requires HitsOutdone(ops, k, now) && k < |Run(ops).log|
    requires forall l :: Retained(Run(ops), l, now) ==> Run(ops).log[k].time <= Run(ops).log[l].time
    ensures LeastRecent(ops, k, now)
  {
    hide Run;
    forall l, t | Retained(Run(ops), l, now) && Used(ops, k, t)
      ensures UsedSince(ops, l, t)
    {
      assert Used(ops, l, Run(ops).log[l].time);
      if t > Run(ops).log[k].time {
        var i :| HitAt(ops, i, Run(ops).log[k].id) && ops[i].time == t;
      }
    }
  }

  // ---- told by the calls alone ----

  // A query for an id that is unexpired and among the last thousand adds.
  ghost predicate Asked(ops: seq<Op>, i: int, id: Id)
  {
    0 <= i < |ops| && ops[i].Check? && ops[i].id == id && InWindow(Adds(ops[..i]), id, ops[i].time)
  }

  // The add, or such a query for its id, comes at t or later.
  ghost predicate UsedFrom(ops: seq<Op>, l: int, t: int)
  {
    0 <= l < |Adds(ops)|
    && (Adds(ops)[l].time >= t || exists i :: Asked(ops, i, Adds(ops)[l].id) && ops[i].time >= t)
  }

  // Whenever the oldest of the last thousand adds was asked for, every one of the others was added or asked for
  // at that time or later.
  ghost predicate OthersUsed(ops: seq<Op>)
  {
    var log := Adds(ops);
    var k := |log| - CAPACITY;
    k >= 0 ==>
      forall i, l :: Asked(ops, i, log[k].id) && ops[i].time >= log[k].time && k < l < |log| ==>
        UsedFrom(ops, l, ops[i].time)
  }

  lemma {:induction false} OldestFirstPrefix(ops: seq<Op>, i: nat)
    requires OldestFirst(ops) && i <= |ops|
    ensures OldestFirst(ops[..i])
    decreases |ops|
  {
    if i < |ops| {
      OldestFirstPrefix(ops[..|ops| - 1], i);
      assert ops[..|ops| - 1][..i] == ops[..i];
    } else {
      assert ops[..i] == ops;
    }
  }

  lemma {:induction false} HitIsAsked(ops: seq<Op>, i: int, id: Id)
    requires Monotone(ops) && OldestFirst(ops)
    ensures HitAt(ops, i, id) <==> Asked(ops, i, id)
  {
    hide Run, OldestFirst, Seen;
    if 0 <= i < |ops| {
      OldestFirstPrefix(ops, i);
      CheckIsWindow(ops[..i], id, ops[i].time);
    }
  }

  lemma {:induction false} SinceIsFrom(ops: seq<Op>, l: int, t: int)
    requires Monotone(ops) && OldestFirst(ops)
    ensures UsedSince(ops, l, t) <==> UsedFrom(ops, l, t)
  {
    hide Run, Seen, InWindow, OldestFirst;
    LogIsAdds(ops);
    var log := Adds(ops);
    if 0 <= l < |log| {
      forall i
        ensures HitAt(ops, i, log[l].id) <==> Asked(ops, i, log[l].id)
      {
        HitIsAsked(ops, i, log[l].id);
      }
      if UsedFrom(ops, l, t) {
        if log[l].time >= t {
          assert Used(ops, l, log[l].time);
        } else {
          var i :| Asked(ops, i, log[l].id) && ops[i].time >= t;
          assert HitAt(ops, i, log[l].id);
          assert Used(ops, l, ops[i].time);
        }
      }
    }
  }

  // A full cache that has always evicted the oldest holds the last thousand adds.
  lemma {:induction false} FullRetains(ops: seq<Op>, now: int, l: int)
    requires Monotone(ops) && (ops != [] ==> ops[|ops| - 1].time <= now)
    requires OldestFirst(ops) && Full(Run(ops).cache, now)
    ensures |Run(ops).log| >= CAPACITY
    ensures Retained(Run(ops), l, now) <==> |Run(ops).log| - CAPACITY <= l < |Run(ops).log|
  {
    hide Run, Inv, Full, OldestFirst;
    var h := Run(ops);
    RunInv(ops, now);
    RunNewest(ops, now);
    FullSources(h, now);
    if |h.log| - CAPACITY <= l < |h.log| {
      AllTaken(h.src, |h.log| - CAPACITY, l);
    }
  }

  // One query and one entry in the two conditions.
  lemma {:induction false} SameDemand(ops: seq<Op>, now: int, i: int, l: int)
    requires Monotone(ops) && (ops != [] ==> ops[|ops| - 1].time <= now)
    requires OldestFirst(ops) && Full(Run(ops).cache, now) && 0 <= i < |ops|
    ensures Run(ops).log == Adds(ops) && |Adds(ops)| >= CAPACITY
    ensures var log, t := Adds(ops), ops[i].time;
      var k := |log| - CAPACITY;
      (HitAt(ops, i, log[k].id) && t >= log[k].time && Retained(Run(ops), l, now) ==> UsedSince(ops, l, t))
      <==> (Asked(ops, i, log[k].id) && t >= log[k].time && k < l < |log| ==> UsedFrom(ops, l, t))
  {
    hide Run, Seen, InWindow, Full, Young, UsedSince, OldestFirst, Retained;
    LogIsAdds(ops);
    FullRetains(ops, now, l);
    var log := Adds(ops);
    HitIsAsked(ops, i, log[|log| - CAPACITY].id);
    SinceIsFrom(ops, l, ops[i].time);
  }

  lemma {:induction false} SameConditions(ops: seq<Op>, now: int)
    requires Monotone(ops) && (ops != [] ==> ops[|ops| - 1].time <= now)
    requires OldestFirst(ops) && Full(Run(ops).cache, now)
    ensures HitsOutdone(ops, |Adds(ops)| - CAPACITY, now) <==> OthersUsed(ops)
  {
    hide Run, Seen, InWindow, UsedSince, UsedFrom, Full, Retained, OldestFirst;
    LogIsAdds(ops);
    FullRetains(ops, now, 0);
    var log, h := Adds(ops), Run(ops);
    var id := log[|log| - CAPACITY].id;
    if HitsOutdone(ops, |log| - CAPACITY, now) {
      forall i, l | Asked(ops, i, id) && ops[i].time >= log[|log| - CAPACITY].time && |log| - CAPACITY < l < |log|
        ensures UsedFrom(ops, l, ops[i].time)
      {
        SameDemand(ops, now, i, l);
      }
    }
    if OthersUsed(ops) {
      forall i, l | HitAt(ops, i, id) && ops[i].time >= log[|log| - CAPACITY].time && Retained(h, l, now)
        ensures UsedSince(ops, l, ops[i].time)
      {
        SameDemand(ops, now, i, l);
      }
    }
  }

  /** As long as evictions take the oldest add, the entry that goes is the least recently used one exactly when
      every other of the last thousand was added or asked for no earlier than each query for it: a condition on
      the calls alone. */
  lemma {:induction false} LruByQueries(ops: seq<Op>, id: Id, now: int)
    requires Monotone(ops) && (ops != [] ==> ops[|ops| - 1].time <= now)
    requires OldestFirst(ops + [Add(id, now)]) && Full(Run(ops).cache, now)
    ensures var k := |Adds(ops)| - CAPACITY;
      k >= 0 && k in Step(Run(ops), Add(id, now)).evicted && (LeastRecent(ops, k, now) <==> OthersUsed(ops))
  {
    hide Run, Seen, InWindow, UsedSince, UsedFrom, Full, Added, SlotFor, Retained;
    assert (ops + [Add(id, now)])[..|ops|] == ops;
    LogIsAdds(ops);
    FullRetains(ops, now, 0);
    var log, h := Adds(ops), Run(ops);
    var k := |log| - CAPACITY;
    assert h.src[SlotFor(h.cache, now)] == k;
    FullRetains(ops, now, k);
    NotLost(h, k, now);
    LruIff(ops, id, now, k);
    SameConditions(ops, now);
  }

  lemma NotLost(h: Hist, k: int, now: int)
    requires Retained(h, k, now)
    ensures k !in h.evicted
  {
  }
}
