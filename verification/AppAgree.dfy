/** The array cache of seen.c and the map of app/App.tsx under the same queries: one on the whole seconds of a
    clock, the other on its milliseconds. */
module AppAgree {
  import opened SeenSpec
  import opened SeenWindow
  import opened AppSeen

  // ---- the same queries put to both caches ----

  // What a clock of whole seconds shows.
  function Sec(ms: int): (s: int)
    ensures 1000 * s <= ms < 1000 * s + 1000
  {
    ms / 1000
  }

  // A bare query, a prune (which only the array cache has), or a packet arriving: a query at one
  // time and, if the answer is no, an add at a later one. Times are in milliseconds.
  datatype Event = Ask(id: Id, time: int) | Tidy(time: int) | Arrive(id: Id, time: int, addTime: int)

  function End(e: Event): int { if e.Arrive? then e.addTime else e.time }

  // The calls the array cache gets, on the seconds of the same clock.
  ghost function Calls(evs: seq<Event>): seq<Op>
  {
    if evs == [] then []
    else
      var before, e := Calls(evs[..|evs| - 1]), evs[|evs| - 1];
      match e
      case Ask(id, t) => before + [Check(id, Sec(t))]
      case Tidy(t) => before + [Prune(Sec(t))]
      case Arrive(id, t, t') =>
        if Seen(Run(before).cache, id, Sec(t)) then before + [Check(id, Sec(t))]
        else before + [Check(id, Sec(t))] + [Add(id, Sec(t'))]
  }

  // What it adds, by the finer clock.
  ghost function Stamped(evs: seq<Event>): seq<Rec>
  {
    if evs == [] then []
    else
      var before, e := evs[..|evs| - 1], evs[|evs| - 1];
      Stamped(before)
      + if e.Arrive? && !Seen(Run(Calls(before)).cache, e.id, Sec(e.time)) then [Rec(e.id, e.addTime)] else []
  }

  function Seconds(log: seq<Rec>): (r: seq<Rec>)
    ensures |r| == |log|
  {
    seq(|log|, k requires 0 <= k < |log| => Rec(log[k].id, Sec(log[k].time)))
  }

  // What the map holds after the events.
  ghost function Items(evs: seq<Event>): seq<Item>
  {
    if evs == [] then []
    else
      var before, e := Items(evs[..|evs| - 1]), evs[|evs| - 1];
      match e
      case Ask(id, t) => AfterHas(before, id, t)
      case Tidy(_) => before
      case Arrive(id, t, t') =>
        if MapHas(before, id, t) then AfterHas(before, id, t) else AfterAdd(AfterHas(before, id, t), id, t')
  }

  ghost predicate Timed(evs: seq<Event>)
  {
    && (forall i :: 0 <= i < |evs| ==> evs[i].time <= End(evs[i]))
    && forall i, j :: 0 <= i < j < |evs| ==> End(evs[i]) <= evs[j].time
  }

  // ---- both against the window ----

  lemma SecMono(t: int, u: int)
    requires t <= u
    ensures Sec(t) <= Sec(u) && (u - t <= SEEN_CACHE_TTL_MS ==> Sec(u) - Sec(t) <= TTL_SEC)
    ensures Sec(u) - Sec(t) <= TTL_SEC ==> u - t < 1000 * (TTL_SEC + 1)
  {
  }

  lemma {:induction false} CallsUntil(evs: seq<Event>, now: int)
    requires Timed(evs) && (evs != [] ==> End(evs[|evs| - 1]) <= now)
    ensures Until(Calls(evs), Sec(now))
  {
    if evs != [] {
      hide Run, Seen, Until, Sec;
      TimedBefore(evs);
      var before, e := evs[..|evs| - 1], evs[|evs| - 1];
      CallsUntil(before, e.time);
      SecMono(e.time, End(e));
      SecMono(End(e), now);
      if e.Tidy? {
        UntilMore(Calls(before), Prune(Sec(e.time)), Sec(e.time));
      } else {
        UntilMore(Calls(before), Check(e.id, Sec(e.time)), Sec(e.time));
        if e.Arrive? {
          UntilMore(Calls(before) + [Check(e.id, Sec(e.time))], Add(e.id, Sec(e.addTime)), Sec(e.time));
        }
      }
      var added := e.Arrive? && !Seen(Run(Calls(before)).cache, e.id, Sec(e.time));
      UntilLater(Calls(evs), Sec(if added then e.addTime else e.time), Sec(now));
    }
  }

  lemma {:induction false} CallsTimed(evs: seq<Event>, now: int)
    requires Timed(evs) && (evs != [] ==> End(evs[|evs| - 1]) <= now)
    ensures Monotone(Calls(evs)) && (Calls(evs) != [] ==> Calls(evs)[|Calls(evs)| - 1].time <= Sec(now))
  {
    hide Calls, Timed, Sec;
    CallsUntil(evs, now);
  }

  // What one event adds to the log.
  lemma {:induction false} CallsExtend(evs: seq<Event>)
    requires evs != []
    ensures var before, e := evs[..|evs| - 1], evs[|evs| - 1];
      Adds(Calls(evs)) == Adds(Calls(before))
        + if e.Arrive? && !Seen(Run(Calls(before)).cache, e.id, Sec(e.time)) then [Rec(e.id, Sec(e.addTime))] else []
  {
    hide Adds, Run, Seen, Sec;
    var before, e := Calls(evs[..|evs| - 1]), evs[|evs| - 1];
    if e.Tidy? {
      AddsAppend(before, Prune(Sec(e.time)));
    } else {
      AddsAppend(before, Check(e.id, Sec(e.time)));
      if e.Arrive? {
        AddsAppend(before + [Check(e.id, Sec(e.time))], Add(e.id, Sec(e.addTime)));
      }
    }
  }

  lemma {:induction false} StampedExtend(evs: seq<Event>)
    requires evs != []
    ensures var before, e := evs[..|evs| - 1], evs[|evs| - 1];
      Stamped(evs) == Stamped(before)
        + if e.Arrive? && !Seen(Run(Calls(before)).cache, e.id, Sec(e.time)) then [Rec(e.id, e.addTime)] else []
  {
    hide Calls, Run, Seen, Sec;
  }

  // The array's log is the finer one in whole seconds.
  lemma {:induction false} AddsAreSeconds(evs: seq<Event>)
    ensures Adds(Calls(evs)) == Seconds(Stamped(evs))
  {
    hide Calls, Run, Seen, Sec, Adds;
    if evs == [] {
      CheckedNone();
    } else {
      AddsAreSeconds(evs[..|evs| - 1]);
      CallsExtend(evs);
      StampedExtend(evs);
    }
  }

  lemma {:induction false} StampedOrdered(evs: seq<Event>, now: int)
    requires Timed(evs) && (evs != [] ==> End(evs[|evs| - 1]) <= now)
    ensures Ordered(Stamped(evs)) && forall k :: 0 <= k < |Stamped(evs)| ==> Stamped(evs)[k].time <= now
  {
    if evs != [] {
      hide Calls, Run, Seen, Sec, Stamped, Timed;
      TimedBefore(evs);
      StampedOrdered(evs[..|evs| - 1], evs[|evs| - 1].time);
      StampedExtend(evs);
    } else {
      assert Stamped([]) == [];
    }
  }

  // ---- where the two clocks may differ ----

  // The add, one of the last thousand, is over a minute old, but not by the seconds of the clock.
  ghost predicate Fading(log: seq<Rec>, k: int, now: int)
  {
    && 0 <= k < |log| && |log| - CAPACITY <= k
    && now - log[k].time > SEEN_CACHE_TTL_MS && Sec(now) - Sec(log[k].time) <= TTL_SEC
  }

  ghost predicate Doubtful(log: seq<Rec>, id: Id, now: int)
  {
    exists k :: Fading(log, k, now) && log[k].id == id
  }

  /** The clocks can disagree only about an add that is more than 60 and less than 61 seconds old. */
  lemma DoubtfulAge(log: seq<Rec>, id: Id, now: int)
    requires Doubtful(log, id, now)
    ensures exists k :: 0 <= k < |log| && log[k].id == id && 60000 < now - log[k].time < 61000
  {
    var k :| Fading(log, k, now) && log[k].id == id;
    SecMono(log[k].time, now);
  }

  // No packet arrives while its own earlier add is in doubt.
  ghost predicate Punctual(evs: seq<Event>)
  {
    evs == []
    || (Punctual(evs[..|evs| - 1])
        && var e := evs[|evs| - 1];
           (e.Arrive? ==> !Doubtful(Stamped(evs[..|evs| - 1]), e.id, e.time)))
  }

  // In whole seconds the window is the finer one and what is in doubt.
  lemma WindowSeconds(log: seq<Rec>, id: Id, now: int)
    requires forall k :: 0 <= k < |log| ==> log[k].time <= now
    ensures InWindow(Seconds(log), id, Sec(now)) <==> Recent(log, id, now) || Doubtful(log, id, now)
  {
    hide Sec;
    var r := Seconds(log);
    forall k | 0 <= k < |log|
      ensures now - log[k].time <= SEEN_CACHE_TTL_MS ==> Sec(now) - r[k].time <= TTL_SEC
    {
      SecMono(log[k].time, now);
    }
    if InWindow(r, id, Sec(now)) {
      var k :| 0 <= k < |r| && |r| - CAPACITY <= k && r[k].id == id && Sec(now) - r[k].time <= TTL_SEC;
      assert now - log[k].time <= SEEN_CACHE_TTL_MS || Fading(log, k, now);
    }
    if Recent(log, id, now) {
      var k :| 0 <= k < |log| && |log| - CAPACITY <= k && log[k].id == id && now - log[k].time <= SEEN_CACHE_TTL_MS;
      assert r[k].id == id;
    }
    if Doubtful(log, id, now) {
      var k :| Fading(log, k, now) && log[k].id == id;
      assert r[k].id == id;
    }
  }

  // Pruning and checking never evict, so an event is as orderly as the add it leads to.
  lemma {:induction false} OldestFirstExtend(evs: seq<Event>)
    requires evs != []
    ensures var before, e := Calls(evs[..|evs| - 1]), evs[|evs| - 1];
      OldestFirst(Calls(evs)) <==> (OldestFirst(before) && (e.Arrive? && !Seen(Run(before).cache, e.id, Sec(e.time))
        ==> TakesOldest(Run(before + [Check(e.id, Sec(e.time))]), Add(e.id, Sec(e.addTime)))))
  {
    hide Run, Seen, TakesOldest;
    var before, e := Calls(evs[..|evs| - 1]), evs[|evs| - 1];
    if e.Tidy? {
      OldestFirstAppend(before, Prune(Sec(e.time)));
      LooksOldest(before, Prune(Sec(e.time)));
    } else {
      OldestFirstAppend(before, Check(e.id, Sec(e.time)));
      LooksOldest(before, Check(e.id, Sec(e.time)));
      if e.Arrive? {
        OldestFirstAppend(before + [Check(e.id, Sec(e.time))], Add(e.id, Sec(e.addTime)));
      }
    }
  }

  lemma {:induction false} OldestFirstAppend(ops: seq<Op>, op: Op)
    ensures OldestFirst(ops + [op]) <==> OldestFirst(ops) && TakesOldest(Run(ops), op)
  {
    assert (ops + [op])[..|ops|] == ops;
  }

  lemma {:induction false} LooksOldest(ops: seq<Op>, op: Op)
    requires !op.Add?
    ensures TakesOldest(Run(ops), op)
  {
  }

  // What one event does to the map.
  lemma {:induction false} ItemsExtend(evs: seq<Event>)
    requires evs != []
    ensures var m, e := Items(evs[..|evs| - 1]), evs[|evs| - 1];
      Items(evs) == if e.Tidy? then m
        else if e.Ask? || MapHas(m, e.id, e.time) then AfterHas(m, e.id, e.time)
        else AfterAdd(AfterHas(m, e.id, e.time), e.id, e.addTime)
  {
  }

  lemma {:induction false} EventTracks(m: seq<Item>, log: seq<Rec>, idx: seq<int>, e: Event) returns (idx': seq<int>)
    requires Tracks(m, log, idx, e.time) && e.time <= End(e) && e.Arrive?
    requires !MapHas(m, e.id, e.time)
    ensures var m' := AfterAdd(AfterHas(m, e.id, e.time), e.id, e.addTime);
      Tracks(m', log + [Rec(e.id, e.addTime)], idx', e.addTime)
  {
    hide Tracks, AfterHas, AfterAdd, MapHas;
    idx' := HasKeeps(m, log, idx, e.id, e.time);
    TimePasses(AfterHas(m, e.id, e.time), log, idx', e.time, e.addTime);
    idx' := AddKeepsTracking(AfterHas(m, e.id, e.time), log, idx', e.id, e.addTime);
  }

  // One event, by what it does to the map and to the log.
  lemma {:induction false} OneEventTracks(m: seq<Item>, log: seq<Rec>, idx: seq<int>, e: Event, m': seq<Item>,
      log': seq<Rec>)
    returns (idx': seq<int>)
    requires Tracks(m, log, idx, e.time) && e.time <= End(e)
    requires m' == if e.Tidy? then m
      else if e.Ask? || MapHas(m, e.id, e.time) then AfterHas(m, e.id, e.time)
      else AfterAdd(AfterHas(m, e.id, e.time), e.id, e.addTime)
    requires log' == log + if e.Arrive? && !MapHas(m, e.id, e.time) then [Rec(e.id, e.addTime)] else []
    ensures Tracks(m', log', idx', End(e))
  {
    hide Tracks, AfterHas, AfterAdd, MapHas;
    assert log + [] == log;
    if e.Tidy? {
      idx' := idx;
    } else if e.Arrive? && !MapHas(m, e.id, e.time) {
      idx' := EventTracks(m, log, idx, e);
      return;
    } else {
      idx' := HasKeeps(m, log, idx, e.id, e.time);
    }
    TimePasses(m', log', idx', e.time, End(e));
  }

  lemma {:induction false} MapTracks(evs: seq<Event>, now: int) returns (idx: seq<int>)
    requires Timed(evs) && (evs != [] ==> End(evs[|evs| - 1]) <= now)
    requires Punctual(evs) && (evs != [] ==> OldestFirst(Calls(evs[..|evs| - 1])))
    ensures Tracks(Items(evs), Stamped(evs), idx, now)
  {
    if evs == [] {
      idx := [];
    } else {
      hide *;
      var before, e := evs[..|evs| - 1], evs[|evs| - 1];
      TimedBefore(evs);
      PunctualBefore(evs);
      StampedExtend(evs);
      ItemsExtend(evs);
      if before != [] {
        OldestFirstExtend(before);
      }
      idx := MapTracks(before, e.time);
      if !e.Tidy? {
        Agrees(before, idx, e.id, e.time);
      }
      idx := OneEventTracks(Items(before), Stamped(before), idx, e, Items(evs), Stamped(evs));
      TimePasses(Items(evs), Stamped(evs), idx, End(e), now);
    }
  }

  lemma {:induction false} PunctualBefore(evs: seq<Event>)
    requires Punctual(evs) && evs != []
    ensures var before, e := evs[..|evs| - 1], evs[|evs| - 1];
      Punctual(before) && (e.Arrive? ==> !Doubtful(Stamped(before), e.id, e.time))
  {
  }

  lemma {:induction false} TimedBefore(evs: seq<Event>)
    requires Timed(evs) && evs != []
    ensures var before, e := evs[..|evs| - 1], evs[|evs| - 1];
      Timed(before) && (before != [] ==> End(before[|before| - 1]) <= e.time) && e.time <= End(e)
  {
  }

  // The map's answer needs no assumption on evictions from the array at the last event.
  lemma {:induction false} MapIsWindow(evs: seq<Event>, idx: seq<int>, id: Id, now: int)
    requires Timed(evs) && (evs != [] ==> End(evs[|evs| - 1]) <= now)
    requires Tracks(Items(evs), Stamped(evs), idx, now)
    ensures MapHas(Items(evs), id, now) <==> Recent(Stamped(evs), id, now)
  {
    hide MapHas, Recent, Tracks, Stamped, Items;
    StampedOrdered(evs, now);
    HasIsWindow(Items(evs), Stamped(evs), idx, id, now);
  }

  // The array's answer.
  lemma {:induction false} ArraySees(evs: seq<Event>, id: Id, now: int)
    requires Timed(evs) && (evs != [] ==> End(evs[|evs| - 1]) <= now) && OldestFirst(Calls(evs))
    ensures Seen(Run(Calls(evs)).cache, id, Sec(now))
       <==> Recent(Stamped(evs), id, now) || Doubtful(Stamped(evs), id, now)
  {
    hide Recent, Doubtful, InWindow, Stamped, Calls, Run, Seen, Sec;
    CallsTimed(evs, now);
    CheckIsWindow(Calls(evs), id, Sec(now));
    AddsAreSeconds(evs);
    StampedOrdered(evs, now);
    WindowSeconds(Stamped(evs), id, now);
  }

  lemma {:induction false} Agrees(evs: seq<Event>, idx: seq<int>, id: Id, now: int)
    requires Timed(evs) && (evs != [] ==> End(evs[|evs| - 1]) <= now)
    requires OldestFirst(Calls(evs)) && Tracks(Items(evs), Stamped(evs), idx, now)
    ensures MapHas(Items(evs), id, now) <==> Recent(Stamped(evs), id, now)
    ensures Seen(Run(Calls(evs)).cache, id, Sec(now))
       <==> MapHas(Items(evs), id, now) || Doubtful(Stamped(evs), id, now)
  {
    hide *;
    ArraySees(evs, id, now);
    MapIsWindow(evs, idx, id, now);
  }

  /** On any check-then-add run on one clock in which the array's evictions take the oldest add and no packet
      comes while its own earlier add is in doubt, the map answers whether the id is at most a minute old and
      among the last thousand adds, and the array the same but for ids in doubt. */
  lemma {:induction false} SameAnswers(evs: seq<Event>, id: Id, now: int)
    requires Timed(evs) && (evs != [] ==> End(evs[|evs| - 1]) <= now)
    requires OldestFirst(Calls(evs)) && Punctual(evs)
    ensures MapHas(Items(evs), id, now) <==> Recent(Stamped(evs), id, now)
    ensures Seen(Run(Calls(evs)).cache, id, Sec(now))
       <==> MapHas(Items(evs), id, now) || Doubtful(Stamped(evs), id, now)
  {
    if evs != [] {
      OldestFirstExtend(evs);
    }
    var idx := MapTracks(evs, now);
    Agrees(evs, idx, id, now);
  }

  // ---- and only then ----

  // Every query put at this time is answered alike.
  ghost predicate Alike(evs: seq<Event>, now: int)
  {
    forall id :: Seen(Run(Calls(evs)).cache, id, Sec(now)) <==> MapHas(Items(evs), id, now)
  }

  // At the beginning and the end of every event of the run.
  ghost predicate AlwaysAlike(evs: seq<Event>)
  {
    evs == []
    || (AlwaysAlike(evs[..|evs| - 1])
        && Alike(evs[..|evs| - 1], evs[|evs| - 1].time) && Alike(evs, End(evs[|evs| - 1])))
  }

  ghost predicate Clear(log: seq<Rec>, now: int) { forall k :: !Fading(log, k, now) }

  // At these times no add is in doubt.
  ghost predicate AlwaysClear(evs: seq<Event>)
  {
    evs == []
    || (AlwaysClear(evs[..|evs| - 1])
        && Clear(Stamped(evs[..|evs| - 1]), evs[|evs| - 1].time) && Clear(Stamped(evs), End(evs[|evs| - 1])))
  }

  // An id comes again only when its earlier add has expired or left the last thousand.
  ghost predicate Unrepeated(log: seq<Rec>)
  {
    forall j, k :: 0 <= j < k < |log| && log[j].id == log[k].id ==>
      log[k].time - log[j].time > TTL_SEC || j < k - CAPACITY
  }

  lemma {:induction false} CheckedAdds(evs: seq<Event>)
    requires Timed(evs) && (evs != [] ==> OldestFirst(Calls(evs[..|evs| - 1])))
    ensures Unrepeated(Adds(Calls(evs)))
  {
    if evs != [] {
      var before, e := evs[..|evs| - 1], evs[|evs| - 1];
      hide Calls, Run, Seen, OldestFirst, TakesOldest, InWindow, Adds, Sec;
      if before == [] {
        CheckedNone();
      } else {
        OldestFirstExtend(before);
        TimedBefore(evs);
        CheckedAdds(before);
      }
      TimedBefore(evs);
      CallsExtend(evs);
      CallsTimed(before, e.time);
      CheckIsWindow(Calls(before), if e.Tidy? then NO_ID else e.id, Sec(e.time));
      SecMono(e.time, End(e));
      if e.Arrive? && !Seen(Run(Calls(before)).cache, e.id, Sec(e.time)) {
        NewUnrepeated(Adds(Calls(before)), e.id, Sec(e.time), Sec(e.addTime));
      } else {
        assert Adds(Calls(before)) + [] == Adds(Calls(before));
      }
    } else {
      CheckedNone();
    }
  }

  lemma CheckedNone()
    ensures Adds(Calls([])) == []
  {
  }

  lemma OutsideWindow(log: seq<Rec>, id: Id, now: int, j: nat)
    requires !InWindow(log, id, now) && j < |log| && log[j].id == id
    ensures now - log[j].time > TTL_SEC || j < |log| - CAPACITY
  {
  }

  lemma NewUnrepeated(log: seq<Rec>, id: Id, now: int, addTime: int)
    requires Unrepeated(log) && !InWindow(log, id, now) && now <= addTime
    ensures Unrepeated(log + [Rec(id, addTime)])
  {
    var log' := log + [Rec(id, addTime)];
    forall j, k | 0 <= j < k < |log'| && log'[j].id == log'[k].id
      ensures log'[k].time - log'[j].time > TTL_SEC || j < k - CAPACITY
    {
      assert log'[j] == log[j];
      if k == |log| {
        OutsideWindow(log, id, now, j);
      }
    }
  }

  // When an add evicts another than the oldest, the array forgets what the map still has.
  lemma {:induction false} WrongVictim(h: Hist, op: Op)
    requires Inv(h, op.time) && Newest(h, op.time) && op.Add? && !TakesOldest(h, op)
    requires Unrepeated(Step(h, op).log)
    ensures var m, h' := h.src[SlotFor(h.cache, op.time)], Step(h, op);
      && m < |h.log| && InWindow(h'.log, h.log[m].id, op.time)
      && !exists k :: Young(h', k, op.time) && h'.log[k].id == h.log[m].id && k !in h'.evicted
  {
    hide Full, SlotFor, Added, Inv, Unrepeated, Newest;
    InvSizes(h, op.time);
    FullSources(h, op.time);
    var m, h', n := h.src[SlotFor(h.cache, op.time)], Step(h, op), |h.log|;
    assert Young(h, m, op.time) && h'.log[m] == h.log[m] && m > n - CAPACITY;
    forall k | Young(h', k, op.time) && h'.log[k].id == h.log[m].id
      ensures k in h'.evicted
    {
      NewTimes(h, op, k);
      NewTimes(h, op, m);
      UnrepeatedAt(h'.log, m, k);
      if k < m {
        assert h'.log[k] == h.log[k] && Young(h, k, op.time);
        NewestAt(h, op.time, k);
      }
    }
  }

  lemma NewestAt(h: Hist, now: int, k: nat)
    requires Newest(h, now) && Young(h, k, now)
    ensures k in h.evicted <==> k < |h.log| - CAPACITY
  {
  }

  lemma UnrepeatedAt(log: seq<Rec>, j: nat, k: nat)
    requires Unrepeated(log) && j < |log| && k < |log| && log[j].id == log[k].id
    ensures j < k ==> log[k].time - log[j].time > TTL_SEC || j < k - CAPACITY
    ensures k < j ==> log[j].time - log[k].time > TTL_SEC || k < j - CAPACITY
  {
  }

  lemma {:induction false} NewTimes(h: Hist, op: Op, k: nat)
    requires Inv(h, op.time) && op.Add? && k < |Step(h, op).log|
    ensures Step(h, op).log[k].time <= op.time
  {
  }

  // Of two adds of one id in the log, the earlier is out of the window when the later is made.
  lemma OneInWindow(log: seq<Rec>, k: nat, l: nat, now: int)
    requires Ordered(log) && Unrepeated(Seconds(log)) && k < |log| && l < |log| && log[k].id == log[l].id
    requires log[l].time <= now && now - log[l].time <= SEEN_CACHE_TTL_MS
    requires now - log[k].time > SEEN_CACHE_TTL_MS && Sec(now) - Sec(log[k].time) <= TTL_SEC
    ensures k < l - CAPACITY
  {
    assert k < l;
    UnrepeatedAt(Seconds(log), k, l);
    SecMono(log[l].time, now);
  }

  // An add in doubt makes the answers differ.
  lemma {:induction false} FadingDiffers(evs: seq<Event>, now: int, k: int)
    requires Timed(evs) && (evs != [] ==> End(evs[|evs| - 1]) <= now)
    requires OldestFirst(Calls(evs)) && Punctual(evs) && Fading(Stamped(evs), k, now)
    ensures !Alike(evs, now)
  {
    hide Calls, OldestFirst, Stamped, Items, Punctual, Timed, Run, Seen, Sec, MapHas;
    var log := Stamped(evs);
    assert Doubtful(log, log[k].id, now);
    SameAnswers(evs, log[k].id, now);
    OnceEach(evs);
    StampedOrdered(evs, now);
    if Recent(log, log[k].id, now) {
      var l :| 0 <= l < |log| && |log| - CAPACITY <= l && log[l].id == log[k].id
        && now - log[l].time <= SEEN_CACHE_TTL_MS;
      OneInWindow(log, k, l, now);
    }
  }

  lemma {:induction false} OnceEach(evs: seq<Event>)
    requires Timed(evs) && (evs != [] ==> OldestFirst(Calls(evs[..|evs| - 1])) || OldestFirst(Calls(evs)))
    ensures Unrepeated(Seconds(Stamped(evs)))
  {
    hide Calls, OldestFirst, Stamped, Seconds, Unrepeated, Timed, Sec, Run, Seen, TakesOldest;
    if evs != [] {
      OldestFirstExtend(evs);
    }
    CheckedAdds(evs);
    AddsAreSeconds(evs);
  }

  // The oldest of the last thousand adds, which the array keeps when it evicts another.
  lemma {:induction false} OldestKept(h: Hist, op: Op)
    requires Inv(h, op.time) && Newest(h, op.time) && op.Add? && Full(h.cache, op.time) && !TakesOldest(h, op)
    ensures var o, h' := |h.log| - CAPACITY, Step(h, op);
      o >= 0 && Young(h', o, op.time) && o !in h'.evicted && h'.log == h.log + [Rec(op.id, op.time)]
  {
    hide Full, SlotFor, Added, Inv, Newest;
    InvSizes(h, op.time);
    var j := OldestHeld(h, op.time);
    LiveSources(h, op.time);
    assert Step(h, op).log[h.src[j]] == h.log[h.src[j]];
  }

  // When the last event makes the array evict another add than the oldest.
  lemma {:induction false} LastEviction(evs: seq<Event>) returns (h: Hist, op: Op)
    requires Timed(evs) && evs != [] && OldestFirst(Calls(evs[..|evs| - 1])) && !OldestFirst(Calls(evs))
    ensures evs[|evs| - 1].Arrive? && op == Add(evs[|evs| - 1].id, Sec(evs[|evs| - 1].addTime))
    ensures Inv(h, op.time) && Newest(h, op.time) && !TakesOldest(h, op) && Full(h.cache, op.time)
    ensures Run(Calls(evs)) == Step(h, op) && Step(h, op).log == Seconds(Stamped(evs))
    ensures Unrepeated(Step(h, op).log) && op.time == Sec(End(evs[|evs| - 1]))
  {
    hide *;
    var before, e := evs[..|evs| - 1], evs[|evs| - 1];
    TimedBefore(evs);
    OldestFirstExtend(evs);
    SecMono(e.time, End(e));
    var looked := Calls(before) + [Check(e.id, Sec(e.time))];
    ArriveCalls(evs);
    OldestFirstAppend(Calls(before), Check(e.id, Sec(e.time)));
    LooksOldest(Calls(before), Check(e.id, Sec(e.time)));
    CallsTimed(before, e.time);
    MonotoneMore(Calls(before), Check(e.id, Sec(e.time)), Sec(e.addTime));
    RunInv(looked, Sec(e.addTime));
    RunNewest(looked, Sec(e.addTime));
    h, op := Run(looked), Add(e.id, Sec(e.addTime));
    OnceEach(evs);
    LogIsAdds(Calls(evs));
    AddsAreSeconds(evs);
    RunMore(looked, Add(e.id, Sec(e.addTime)));
    InvSizes(h, op.time);
    NotOldestIsFull(h, op);
  }

  lemma NotOldestIsFull(h: Hist, op: Op)
    requires Valid(h.cache) && |h.src| == CAPACITY && !TakesOldest(h, op)
    ensures Full(h.cache, op.time)
  {
  }

  // A wrong eviction makes the answers differ, if not about the id evicted, then about the oldest.
  lemma {:induction false} Disagree(evs: seq<Event>)
    requires Timed(evs) && evs != [] && OldestFirst(Calls(evs[..|evs| - 1])) && !OldestFirst(Calls(evs))
    requires Punctual(evs)
    ensures !Alike(evs, End(evs[|evs| - 1]))
  {
    hide Calls, Run, Step, Items, Stamped, Seen, MapHas, Recent, Doubtful, InWindow, Inv, Newest, TakesOldest,
      Unrepeated, OldestFirst, Timed, Punctual, Sec, Full, SlotFor, Ordered, Alike, Tracks, End;
    var now := End(evs[|evs| - 1]);
    var h, op := LastEviction(evs);
    InvSizes(h, op.time);
    WrongVictim(h, op);
    OldestKept(h, op);
    CallsTimed(evs, now);
    StampedOrdered(evs, now);
    var idx := MapTracks(evs, now);
    var log, x, o := Stamped(evs), h.log[h.src[SlotFor(h.cache, op.time)]].id, |h.log| - CAPACITY;
    CheckExact(Calls(evs), x, op.time);
    MapIsWindow(evs, idx, x, now);
    if Recent(log, x, now) {
      NotAlike(evs, x, now);
    } else {
      WindowSeconds(log, x, now);
      OldestOut(log, o, x, now);
      CheckExact(Calls(evs), log[o].id, op.time);
      MapIsWindow(evs, idx, log[o].id, now);
      NotAlike(evs, log[o].id, now);
    }
  }

  // An add just out of the last thousand is older than one in doubt, and so the map has forgotten it.
  lemma OldestOut(log: seq<Rec>, o: nat, x: Id, now: int)
    requires Ordered(log) && Unrepeated(Seconds(log)) && o == |log| - 1 - CAPACITY && Doubtful(log, x, now)
    requires (forall k :: 0 <= k < |log| ==> log[k].time <= now) && Sec(now) - Seconds(log)[o].time <= TTL_SEC
    ensures !Recent(log, log[o].id, now)
  {
    hide Sec, Unrepeated;
    var k :| Fading(log, k, now) && log[k].id == x;
    assert log[o].time <= log[k].time;
    if Recent(log, log[o].id, now) {
      var l :| 0 <= l < |log| && |log| - CAPACITY <= l && log[l].id == log[o].id
        && now - log[l].time <= SEEN_CACHE_TTL_MS;
      OneInWindow(log, o, l, now);
    }
  }

  lemma {:induction false} ArriveCalls(evs: seq<Event>)
    requires evs != [] && evs[|evs| - 1].Arrive?
    requires !Seen(Run(Calls(evs[..|evs| - 1])).cache, evs[|evs| - 1].id, Sec(evs[|evs| - 1].time))
    ensures var c, e := Calls(evs[..|evs| - 1]), evs[|evs| - 1];
      Calls(evs) == c + [Check(e.id, Sec(e.time))] + [Add(e.id, Sec(e.addTime))] && End(e) == e.addTime
  {
  }

  lemma {:induction false} MonotoneMore(ops: seq<Op>, op: Op, now: int)
    requires Monotone(ops) && (ops != [] ==> ops[|ops| - 1].time <= op.time) && op.time <= now
    ensures Monotone(ops + [op]) && (ops + [op])[|ops|].time <= now
  {
    assert forall i :: 0 <= i < |ops| ==> ops[i].time <= op.time;
  }

  lemma NotAlike(evs: seq<Event>, id: Id, now: int)
    requires Seen(Run(Calls(evs)).cache, id, Sec(now)) != MapHas(Items(evs), id, now)
    ensures !Alike(evs, now)
  {
  }

  lemma {:induction false} ClearIsPunctual(evs: seq<Event>)
    requires AlwaysClear(evs)
    ensures Punctual(evs)
  {
    if evs != [] {
      hide Stamped, Fading;
      ClearIsPunctual(evs[..|evs| - 1]);
    }
  }

  lemma {:induction false} AlikeIff(evs: seq<Event>, now: int)
    requires Timed(evs) && (evs != [] ==> End(evs[|evs| - 1]) <= now)
    requires OldestFirst(Calls(evs)) && Punctual(evs)
    ensures Alike(evs, now) <==> Clear(Stamped(evs), now)
  {
    hide Calls, Items, Stamped, OldestFirst, Punctual, Fading, Timed, Run, Seen, Sec, MapHas;
    if Clear(Stamped(evs), now) {
      forall id
        ensures Seen(Run(Calls(evs)).cache, id, Sec(now)) <==> MapHas(Items(evs), id, now)
      {
        SameAnswers(evs, id, now);
      }
    } else {
      var k :| Fading(Stamped(evs), k, now);
      FadingDiffers(evs, now, k);
    }
  }

  /** The two caches answer every query alike throughout a run exactly when each add that finds the array full
      evicts the oldest of the last thousand adds, and no add is in doubt at a time of the run. */
  lemma {:induction false} SameAnswersIff(evs: seq<Event>)
    requires Timed(evs)
    ensures AlwaysAlike(evs) <==> OldestFirst(Calls(evs)) && AlwaysClear(evs)
  {
    if evs == [] {
      NoneOldestFirst();
    } else {
      hide Calls, Items, Stamped, OldestFirst, Alike, Clear, Punctual, TakesOldest;
      var before, e := evs[..|evs| - 1], evs[|evs| - 1];
      TimedBefore(evs);
      SameAnswersIff(before);
      OldestFirstExtend(evs);
      if OldestFirst(Calls(before)) && AlwaysClear(before) {
        ClearIsPunctual(before);
        AlikeIff(before, e.time);
        if Clear(Stamped(before), e.time) {
          PunctualMore(evs);
          if OldestFirst(Calls(evs)) {
            AlikeIff(evs, End(e));
          } else {
            Disagree(evs);
          }
        }
      }
    }
  }

  lemma {:induction false} PunctualMore(evs: seq<Event>)
    requires evs != [] && Punctual(evs[..|evs| - 1]) && Clear(Stamped(evs[..|evs| - 1]), evs[|evs| - 1].time)
    ensures Punctual(evs)
  {
    hide Stamped, Fading;
  }

  lemma NoneOldestFirst()
    ensures OldestFirst(Calls([]))
  {
  }
}
