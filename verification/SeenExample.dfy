/** Two runs: a thousand ids and one more, after a hit on the first; and 1002 ids in one second. */
module SeenExample {
  import opened Arith
  import opened Bits
  import opened SeenSpec
  import opened SeenWindow
  import opened SeenRecency
  import opened AppSeen
  import opened AppAgree

  function Name(i: nat): Id { LeBytes(i, 8) }

  lemma NamesDiffer(i: nat, j: nat)
    requires i < 65536 && j < 65536 && i != j
    ensures Name(i) != Name(j)
  {
    assert Pow(256, 2) == 65536;
    PowAdd(256, 2, 6);
    PowPositive(256, 6);
    assert Pow(256, 8) >= 65536;
    LeOfLeBytes(i, 8);
    LeOfLeBytes(j, 8);
  }

  // The first id comes at time 0, the others at time r.
  function When(i: nat, r: int): int { if i == 0 then 0 else r }

  function Burst(n: nat, r: int): (ops: seq<Op>)
    ensures |ops| == n
  {
    seq(n, i requires 0 <= i < n => Add(Name(i), When(i, r)))
  }

  function BurstLog(n: nat, r: int): seq<Rec>
  {
    seq(n, i requires 0 <= i < n => Rec(Name(i), When(i, r)))
  }

  // The cache after n of them, each in its own slot.
  function BurstCache(n: nat, r: int): (c: Cache)
    requires n <= CAPACITY
    ensures |c.slots| == CAPACITY
  {
    Cache(seq(CAPACITY, i requires 0 <= i < CAPACITY =>
                if i < n then Entry(Name(i), When(i, r), true) else Entry(NO_ID, 0, false)), n)
  }

  lemma FullEntries(r: int)
    ensures var c := BurstCache(1000, r);
      && c.count == 1000
      && forall k :: 0 <= k < 1000 ==> c.slots[k] == Entry(Name(k), if k == 0 then 0 else r, true)
  {
    hide Name;
  }

  lemma BurstSlot(n: nat, r: int, now: int)
    requires n < CAPACITY && 0 <= r <= now <= 60
    ensures !Full(BurstCache(n, r), now) && SlotFor(BurstCache(n, r), now) == n
    ensures Added(BurstCache(n, r), Name(n), When(n, r)).slots
         == BurstCache(n, r).slots[n := Entry(Name(n), When(n, r), true)]
      || now != When(n, r)
  {
    hide Name;
    var c := BurstCache(n, r);
    assert forall k :: 0 <= k < n ==> Live(c.slots[k], now);
    assert !Live(c.slots[n], now);
  }

  lemma BurstAdds(n: nat, r: int)
    requires n < CAPACITY && 0 <= r <= 60
    ensures !Full(BurstCache(n, r), When(n, r)) && SlotFor(BurstCache(n, r), When(n, r)) == n
    ensures Added(BurstCache(n, r), Name(n), When(n, r)) == BurstCache(n + 1, r)
  {
    hide Name, SlotFor, Full;
    if n == 0 {
      BurstSlot(0, 0, 0);
      assert BurstCache(0, 0) == BurstCache(0, r);
    } else {
      BurstSlot(n, r, r);
    }
    assert BurstCache(n, r).slots[n := Entry(Name(n), When(n, r), true)] == BurstCache(n + 1, r).slots;
  }

  lemma {:induction false} RunBurst(n: nat, r: int)
    requires n <= CAPACITY && 0 <= r <= 60
    ensures var h := Run(Burst(n, r));
      && h.cache == BurstCache(n, r) && h.log == BurstLog(n, r) && h.evicted == {}
      && forall i :: 0 <= i < n ==> h.src[i] == i
  {
    hide Name, SlotFor, Full, Added;
    if n == 0 {
      assert Start().cache.slots == BurstCache(0, r).slots;
      assert BurstLog(0, r) == [];
    } else {
      RunBurst(n - 1, r);
      BurstAdds(n - 1, r);
      assert Burst(n, r)[..n - 1] == Burst(n - 1, r);
      assert BurstLog(n, r) == BurstLog(n - 1, r) + [Rec(Name(n - 1), When(n - 1, r))];
    }
  }

  // ---- the entry just hit is the one evicted ----

  function HitRun(): seq<Op> { Burst(1000, 1) + [Check(Name(0), 2)] }

  lemma {:induction false} AfterHit()
    ensures Monotone(HitRun()) && |HitRun()| == 1001 && HitRun()[..1000] == Burst(1000, 1)
    ensures var h := Run(HitRun());
      && h.cache == BurstCache(1000, 1) && h.log == BurstLog(1000, 1) && h.evicted == {}
      && forall i :: 0 <= i < 1000 ==> h.src[i] == i
    ensures HitAt(HitRun(), 1000, Name(0))
  {
    hide Name;
    var c := BurstCache(1000, 1);
    RunBurst(1000, 1);
    assert HitRun()[..1000] == Burst(1000, 1);
    assert Matches(c.slots[0], Name(0), 2);
    assert Sweep(c.slots, 0, 2) == c.slots;
  }

  lemma FullBurst()
    ensures Full(BurstCache(1000, 1), 3) && SlotFor(BurstCache(1000, 1), 3) == 0
  {
    hide Name, BurstCache, Full, SlotFor;
    var c := BurstCache(1000, 1);
    FullEntries(1);
    AllLiveIsFull(c, 3);
    assert c.slots[SlotFor(c, 3)].timestamp <= c.slots[0].timestamp;
  }

  /** Not LRU: of a thousand entries the array evicts the one that was used last, because it came first.
      (The run has adds in the same second, is full, and evicts the oldest add all the same.) */
  lemma {:induction false} LruFails()
    ensures var ops, h := HitRun(), Run(HitRun());
      && Monotone(ops) && Retained(h, 0, 3) && Retained(h, 1, 3)
      && Used(ops, 0, 2) && (forall t :: Used(ops, 1, t) ==> t == 1)
      && 0 in Step(h, Add(Name(1000), 3)).evicted && !Seen(Step(h, Add(Name(1000), 3)).cache, Name(0), 3)
      && Spread(Adds(ops + [Add(Name(1000), 3)])) && !Sparse(Adds(ops + [Add(Name(1000), 3)]))
  {
    var ops := HitRun();
    AfterHit();
    FullBurst();
    OnlyHit();
    HitForgotten();
    HitSpread();
    hide Name, SlotFor, Full, Run, Burst, Spread, Sparse, Added, Adds, BurstCache, HitAt, Seen;
    assert Used(ops, 0, 2);
  }

  // No query was for the second id.
  lemma {:induction false} OnlyHit()
    ensures forall i :: !HitAt(HitRun(), i, Name(1))
  {
    hide Name, Run, Seen;
    NamesDiffer(0, 1);
  }

  lemma {:induction false} HitForgotten()
    ensures !Seen(Step(Run(HitRun()), Add(Name(1000), 3)).cache, Name(0), 3)
  {
    hide Name, SlotFor, Full, Run, BurstCache, Burst;
    AfterHit();
    FullBurst();
    FullEntries(1);
    var c := BurstCache(1000, 1);
    var c' := Added(c, Name(1000), 3);
    assert c'.slots == c.slots[0 := Entry(Name(1000), 3, true)];
    forall k | 0 <= k < 1000
      ensures c'.slots[k].id != Name(0)
    {
      NamesDiffer(0, if k == 0 then 1000 else k);
    }
  }

  lemma {:induction false} HitSpread()
    ensures Spread(Adds(HitRun() + [Add(Name(1000), 3)])) && !Sparse(Adds(HitRun() + [Add(Name(1000), 3)]))
  {
    hide Name, Run, Burst;
    AfterHit();
    LogIsAdds(HitRun());
    AddsAppend(HitRun(), Add(Name(1000), 3));
    var log := BurstLog(1000, 1) + [Rec(Name(1000), 3)];
    assert Adds(HitRun() + [Add(Name(1000), 3)]) == log;
    assert log[0].time == 0 && log[1].time == 1 && log[1000].time == 3;
    assert Crowded(log, 1000);
  }

  // ---- many ids in one second ----

  function Arrivals(n: nat): (evs: seq<Event>)
    ensures |evs| == n
  {
    seq(n, i requires 0 <= i < n => Arrive(Name(i), 0, 0))
  }

  // The map with the ids from a to b.
  function Names(a: nat, b: nat): (m: seq<Item>)
    requires a <= b
    ensures |m| == b - a && forall i :: 0 <= i < b - a ==> m[i] == Item(Name(a + i), 0)
  {
    seq(b - a, i requires 0 <= i < b - a => Item(Name(a + i), 0))
  }

  lemma NotNamed(a: nat, b: nat, j: nat)
    requires a <= b <= 65536 && j < 65536 && !(a <= j < b)
    ensures Find(Names(a, b), Name(j)) == b - a && !MapHas(Names(a, b), Name(j), 0)
  {
    var m := Names(a, b);
    forall i | 0 <= i < |m|
      ensures m[i].id != Name(j)
    {
      NamesDiffer(a + i, j);
    }
  }

  // An arrival that neither cache has seen, all within one second.
  lemma {:induction false} OneArrival(n: nat, c: Cache, m: seq<Item>)
    requires Run(Calls(Arrivals(n))).cache == c && Items(Arrivals(n)) == m
    requires forall i :: 0 <= i < |c.slots| ==> c.slots[i].timestamp == 0
    requires !Seen(c, Name(n), 0) && Find(m, Name(n)) == |m|
    ensures |c.slots| == CAPACITY && Run(Calls(Arrivals(n + 1))).cache == Added(c, Name(n), 0)
    ensures Items(Arrivals(n + 1)) == AfterAdd(m, Name(n), 0)
  {
    hide Name, Added, AfterAdd, Seen, Checked, Run, Calls, Items, Valid, Find;
    assert Sec(0) == 0;
    var evs, ops := Arrivals(n + 1), Calls(Arrivals(n));
    assert evs[..n] == Arrivals(n);
    assert evs[n] == Arrive(Name(n), 0, 0);
    ItemsExtend(evs);
    NotHad(m, Name(n));
    ArriveCalls(evs);
    RunMore(ops, Check(Name(n), 0));
    RunMore(ops + [Check(Name(n), 0)], Add(Name(n), 0));
    RunSizes(ops);
    CheckedSame(c, Name(n));
  }

  lemma NotHad(m: seq<Item>, id: Id)
    requires Find(m, id) == |m|
    ensures !MapHas(m, id, 0) && AfterHas(m, id, 0) == m
  {
  }

  lemma RunSizes(ops: seq<Op>)
    ensures |Run(ops).cache.slots| == CAPACITY && Run(ops).cache.count <= CAPACITY
  {
  }

  lemma CheckedSame(c: Cache, id: Id)
    requires c.count <= |c.slots| && forall i :: 0 <= i < |c.slots| ==> c.slots[i].timestamp == 0
    ensures Checked(c, id, 0) == c
  {
    assert Checked(c, id, 0).slots == c.slots;
  }

  lemma NotInBurst(n: nat, j: nat)
    requires n <= CAPACITY && n <= j < 65536
    ensures !Seen(BurstCache(n, 0), Name(j), 0)
  {
    var c := BurstCache(n, 0);
    forall i | 0 <= i < c.count
      ensures c.slots[i].id != Name(j)
    {
      NamesDiffer(i, j);
    }
  }

  lemma {:induction false} RunArrivals(n: nat)
    requires n <= CAPACITY
    ensures Run(Calls(Arrivals(n))).cache == BurstCache(n, 0) && Items(Arrivals(n)) == Names(0, n)
  {
    hide Name, Added, Seen, AfterAdd, Run, BurstCache, Calls, Items, Find, MapHas, Arrivals, Names;
    if n == 0 {
      NoArrivals();
    } else {
      RunArrivals(n - 1);
      BurstZero(n - 1);
      NotInBurst(n - 1, n - 1);
      NotNamed(0, n - 1, n - 1);
      OneArrival(n - 1, BurstCache(n - 1, 0), Names(0, n - 1));
      BurstAdds(n - 1, 0);
      NotThere(n - 1);
      AfterAddIs(Names(0, n - 1), Name(n - 1), 0);
      assert Names(0, n - 1)[0..] + [Item(Name(n - 1), 0)] == Names(0, n);
    }
  }

  lemma BurstZero(n: nat)
    requires n <= CAPACITY
    ensures forall i :: 0 <= i < CAPACITY ==> BurstCache(n, 0).slots[i].timestamp == 0
  {
  }

  lemma NotThere(n: nat)
    requires n < 65536
    ensures forall i :: 0 <= i < n ==> Names(0, n)[i].id != Name(n)
  {
    hide Name, Names;
    forall i | 0 <= i < n
      ensures Names(0, n)[i].id != Name(n)
    {
      NamesDiffer(i, n);
    }
  }

  lemma NoArrivals()
    ensures Run(Calls(Arrivals(0))).cache == BurstCache(0, 0) && Items(Arrivals(0)) == Names(0, 0)
  {
    assert Start().cache.slots == BurstCache(0, 0).slots;
  }

  // With all timestamps equal the first slot is taken, again and again.
  lemma TakesFirst(c: Cache, id: Id)
    requires |c.slots| == CAPACITY && forall i :: 0 <= i < CAPACITY ==> c.slots[i].active && c.slots[i].timestamp == 0
    ensures Added(c, id, 0) == c.(slots := c.slots[0 := Entry(id, 0, true)])
  {
    assert forall i :: 0 <= i < CAPACITY ==> Live(c.slots[i], 0);
    AllLiveIsFull(c, 0);
    assert SlotFor(c, 0) == 0;
  }

  /** At equal seconds the caches differ: of 1002 different ids in one second the array forgets the
      second newest, which the map still has. */
  lemma {:induction false} TieForgets()
    ensures var evs := Arrivals(1002);
      && Timed(evs) && !OldestFirst(Calls(evs))
      && !Seen(Run(Calls(evs)).cache, Name(1000), 0) && MapHas(Items(evs), Name(1000), 0)
  {
    hide Name, Added, Seen, AfterAdd, Run, OldestFirst, BurstCache, Calls, Items, Find, MapHas, Timed;
    FullEntries(0);
    var c0 := BurstCache(1000, 0);
    var c1 := c0.(slots := c0.slots[0 := Entry(Name(1000), 0, true)]);
    var c2 := c0.(slots := c0.slots[0 := Entry(Name(1001), 0, true)]);
    RunArrivals(1000);
    NotInBurst(1000, 1000);
    NotNamed(0, 1000, 1000);
    OneArrival(1000, c0, Names(0, 1000));
    TakesFirst(c0, Name(1000));
    AfterAddIs(Names(0, 1000), Name(1000), 0);
    assert Names(0, 1000)[1..] + [Item(Name(1000), 0)] == Names(1, 1001);
    OtherFirst(1000, 1001);
    NotNamed(1, 1001, 1001);
    OneArrival(1001, c1, Names(1, 1001));
    TakesFirst(c1, Name(1001));
    AfterAddIs(Names(1, 1001), Name(1001), 0);
    assert Names(1, 1001)[1..] + [Item(Name(1001), 0)] == Names(2, 1002);
    assert c1.slots[0 := Entry(Name(1001), 0, true)] == c2.slots;
    OtherFirst(1001, 1000);
    Named(2, 1002, 1000);
    SameUnlessWrong(1002, 1000);
  }

  lemma OtherFirst(i: nat, j: nat)
    requires 1000 <= i < 65536 && 1000 <= j < 65536 && i != j
    ensures var c := BurstCache(1000, 0);
      !Seen(c.(slots := c.slots[0 := Entry(Name(i), 0, true)]), Name(j), 0)
  {
    var c := BurstCache(1000, 0);
    var c' := c.(slots := c.slots[0 := Entry(Name(i), 0, true)]);
    forall k | 0 <= k < 1000
      ensures c'.slots[k].id != Name(j)
    {
      NamesDiffer(if k == 0 then i else k, j);
    }
  }

  lemma Named(a: nat, b: nat, j: nat)
    requires a <= j < b
    ensures MapHas(Names(a, b), Name(j), 0)
  {
    assert Names(a, b)[j - a].id == Name(j);
    var k := Find(Names(a, b), Name(j));
  }

  lemma {:induction false} ArrivalsPunctual(n: nat)
    ensures Punctual(Arrivals(n)) && forall k :: 0 <= k < |Stamped(Arrivals(n))| ==> Stamped(Arrivals(n))[k].time == 0
  {
    if n > 0 {
      hide Name, Calls, Run, Seen, Stamped;
      var evs := Arrivals(n);
      assert evs[..|evs| - 1] == Arrivals(n - 1) && evs[|evs| - 1].time == End(evs[|evs| - 1]) == 0;
      ArrivalsPunctual(n - 1);
      StampedExtend(evs);
    } else {
      assert Stamped([]) == [];
    }
  }

  lemma {:induction false} SameUnlessWrong(n: nat, j: nat)
    requires Seen(Run(Calls(Arrivals(n))).cache, Name(j), 0) != MapHas(Items(Arrivals(n)), Name(j), 0)
    ensures Timed(Arrivals(n)) && !OldestFirst(Calls(Arrivals(n)))
  {
    hide Name, Seen, Run, OldestFirst, Calls, Items, MapHas, Stamped;
    if OldestFirst(Calls(Arrivals(n))) {
      assert Sec(0) == 0;
      ArrivalsPunctual(n);
      SameAnswers(Arrivals(n), Name(j), 0);
    }
  }

  // ---- a packet that comes while its add is in doubt ----

  const FIRST: Event := Arrive(NO_ID, 0, 0)

  const SECOND: Event := Arrive(NO_ID, 60500, 60500)

  lemma {:induction false} FewOldestFirst(evs: seq<Event>, now: int)
    requires Timed(evs) && (evs != [] ==> End(evs[|evs| - 1]) <= now) && |Stamped(evs)| < CAPACITY
    ensures OldestFirst(Calls(evs))
  {
    hide Calls, Stamped, OldestFirst;
    CallsTimed(evs, now);
    AddsAreSeconds(evs);
    SpreadOldestFirst(Calls(evs));
  }

  lemma {:induction false} AfterFirst()
    ensures Timed([FIRST]) && Stamped([FIRST]) == [Rec(NO_ID, 0)] && Items([FIRST]) == [Item(NO_ID, 0)]
  {
    hide Run, Seen, Calls;
    assert [FIRST][..0] == [] && Stamped([]) == [] && Items([]) == [];
    FewOldestFirst([], 0);
    ArraySees([], NO_ID, 0);
    StampedExtend([FIRST]);
    ItemsExtend([FIRST]);
    AfterAddIs([], NO_ID, 0);
  }

  lemma {:induction false} AfterSecond()
    ensures Timed([FIRST, SECOND]) && Stamped([FIRST, SECOND]) == [Rec(NO_ID, 0)]
    ensures Items([FIRST, SECOND]) == [Item(NO_ID, 60500)] && !Punctual([FIRST, SECOND])
  {
    hide Run, Seen, Calls;
    AfterFirst();
    assert [FIRST, SECOND][..1] == [FIRST];
    FewOldestFirst([FIRST], 60500);
    assert Fading(Stamped([FIRST]), 0, 60500);
    ArraySees([FIRST], NO_ID, 60500);
    StampedExtend([FIRST, SECOND]);
    ItemsExtend([FIRST, SECOND]);
    assert AfterHas([Item(NO_ID, 0)], NO_ID, 60500) == [];
    AfterAddIs([], NO_ID, 60500);
  }

  /** Why no packet may come while its own add is in doubt: after a second arrival 60.5 seconds after the first,
      which the array drops and the map takes as new, they differ ten seconds later with nothing in doubt. */
  lemma {:induction false} ClocksPart()
    ensures var evs := [FIRST, SECOND];
      && Timed(evs) && OldestFirst(Calls(evs)) && !Punctual(evs) && !Doubtful(Stamped(evs), NO_ID, 70000)
      && !Seen(Run(Calls(evs)).cache, NO_ID, Sec(70000)) && MapHas(Items(evs), NO_ID, 70000)
  {
    hide Run, Seen, Calls, OldestFirst, Stamped, Items, Timed, Punctual;
    AfterSecond();
    assert [FIRST, SECOND][|[FIRST, SECOND]| - 1] == SECOND;
    FewOldestFirst([FIRST, SECOND], 70000);
    ArraySees([FIRST, SECOND], NO_ID, 70000);
  }
}
