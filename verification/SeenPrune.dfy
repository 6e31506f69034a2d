/** Deactivating expired entries, by vex_seen_prune or inside vex_seen_check, cannot be observed. */
module SeenPrune {
  import opened SeenSpec
  import opened SeenWindow
  import opened Options

  // What the caller of one operation, or anyone looking at the slots taken, can tell.
  datatype Obs = Answer(seen: bool) | Placed(slot: nat, lost: Option<Id>)

  ghost function Observe(c: Cache, op: Op): seq<Obs>
    requires Valid(c)
  {
    match op
    case Check(id, t) => [Answer(Seen(c, id, t))]
    case Add(_, t) => [Placed(SlotFor(c, t), if Full(c, t) then Some(c.slots[SlotFor(c, t)].id) else None)]
    case Prune(_) => []
  }

  ghost function After(c: Cache, op: Op): (c': Cache)
    requires Valid(c)
    ensures Valid(c')
  {
    match op
    case Check(id, t) => ValidKept(c, id, t); Checked(c, id, t)
    case Add(id, t) => ValidKept(c, id, t); Added(c, id, t)
    case Prune(t) => ValidKept(c, NO_ID, t); Pruned(c, t)
  }

  ghost function Trace(c: Cache, ops: seq<Op>): seq<Obs>
    requires Valid(c)
    decreases |ops|
  {
    if ops == [] then [] else Observe(c, ops[0]) + Trace(After(c, ops[0]), ops[1..])
  }

  // A run on a cache that never deactivates anything.
  ghost function LazyTrace(c: Cache, ops: seq<Op>): seq<Obs>
    requires Valid(c)
    decreases |ops|
  {
    if ops == [] then []
    else Observe(c, ops[0]) + LazyTrace(if ops[0].Add? then After(c, ops[0]) else c, ops[1..])
  }

  function WithoutPrunes(ops: seq<Op>): seq<Op>
  {
    if ops == [] then [] else (if ops[0].Prune? then [] else [ops[0]]) + WithoutPrunes(ops[1..])
  }

  // The same live entries in the same places.
  ghost predicate Same(c: Cache, d: Cache, now: int)
  {
    && Valid(c) && Valid(d) && c.count == d.count
    && forall i :: 0 <= i < CAPACITY ==> SameSlot(c.slots[i], d.slots[i], now)
  }

  ghost predicate SameSlot(e: Entry, f: Entry, now: int)
  {
    Live(e, now) == Live(f, now) && (Live(e, now) ==> e == f)
  }

  lemma {:induction false} SameFree(s: seq<Entry>, t: seq<Entry>, i: nat, now: int)
    requires |s| == |t| && i <= |s| && forall k :: 0 <= k < |s| ==> SameSlot(s[k], t[k], now)
    ensures Free(s, i, now) == Free(t, i, now)
    decreases |s| - i
  {
    if i < |s| {
      assert SameSlot(s[i], t[i], now);
      SameFree(s, t, i + 1, now);
    }
  }

  lemma SamePlace(c: Cache, d: Cache, now: int)
    requires Same(c, d, now)
    ensures Full(c, now) == Full(d, now) && SlotFor(c, now) == SlotFor(d, now)
    ensures Full(c, now) ==> c.slots == d.slots
  {
    SameFree(c.slots, d.slots, 0, now);
    if Full(c, now) {
      assert forall k :: 0 <= k < CAPACITY ==> SameSlot(c.slots[k], d.slots[k], now) && Live(c.slots[k], now);
      assert c.slots == d.slots;
    }
  }

  lemma SameSeen(c: Cache, d: Cache, id: Id, now: int)
    requires Same(c, d, now)
    ensures Seen(c, id, now) == Seen(d, id, now)
  {
    assert forall i :: 0 <= i < c.count ==> SameSlot(c.slots[i], d.slots[i], now);
    assert forall i :: 0 <= i < c.count ==> Matches(c.slots[i], id, now) == Matches(d.slots[i], id, now);
  }

  lemma SameLater(c: Cache, d: Cache, now: int, later: int)
    requires Same(c, d, now) && now <= later
    ensures Same(c, d, later)
  {
    forall i | 0 <= i < CAPACITY
      ensures SameSlot(c.slots[i], d.slots[i], later)
    {
      assert SameSlot(c.slots[i], d.slots[i], now);
    }
  }

  lemma SameSelf(c: Cache, now: int)
    requires Valid(c)
    ensures Same(c, c, now)
  {
    assert forall i :: 0 <= i < CAPACITY ==> SameSlot(c.slots[i], c.slots[i], now);
  }

  // Looking on one side only.
  lemma {:induction false} SameLook(c: Cache, d: Cache, op: Op)
    requires Same(c, d, op.time) && !op.Add?
    ensures Same(After(c, op), d, op.time)
  {
    var c' := After(c, op);
    forall i | 0 <= i < CAPACITY
      ensures SameSlot(c'.slots[i], d.slots[i], op.time)
    {
      assert SameSlot(c.slots[i], d.slots[i], op.time);
    }
  }

  lemma {:induction false} SameAdd(c: Cache, d: Cache, op: Op)
    requires Same(c, d, op.time) && op.Add?
    ensures Same(After(c, op), After(d, op), op.time)
  {
    SamePlace(c, d, op.time);
    var c', d' := After(c, op), After(d, op);
    hide SlotFor, Full;
    forall i | 0 <= i < CAPACITY
      ensures SameSlot(c'.slots[i], d'.slots[i], op.time)
    {
      assert SameSlot(c.slots[i], d.slots[i], op.time);
    }
  }

  // Two caches that agree on what is live show the same, one of them lazy.
  lemma {:induction false} SameTrace(c: Cache, d: Cache, ops: seq<Op>, now: int)
    requires Same(c, d, now) && Monotone(ops) && (ops != [] ==> now <= ops[0].time)
    ensures Trace(c, ops) == LazyTrace(d, ops)
    decreases |ops|
  {
    if ops != [] {
      var op, rest := ops[0], ops[1..];
      SameLater(c, d, now, op.time);
      SamePlace(c, d, op.time);
      if op.Check? {
        SameSeen(c, d, op.id, op.time);
      }
      assert Observe(c, op) == Observe(d, op);
      if op.Add? {
        SameAdd(c, d, op);
        SameTrace(After(c, op), After(d, op), rest, op.time);
      } else {
        SameLook(c, d, op);
        SameTrace(After(c, op), d, rest, op.time);
      }
    }
  }

  lemma {:induction false} LazySkips(c: Cache, ops: seq<Op>)
    requires Valid(c)
    ensures LazyTrace(c, ops) == LazyTrace(c, WithoutPrunes(ops))
    decreases |ops|
  {
    if ops != [] {
      var op, rest := ops[0], ops[1..];
      LazySkips(if op.Add? then After(c, op) else c, rest);
      if op.Prune? {
        assert WithoutPrunes(ops) == WithoutPrunes(rest);
        assert Observe(c, op) == [];
      } else {
        assert WithoutPrunes(ops)[1..] == WithoutPrunes(rest);
      }
    }
  }

  lemma {:induction false} StillMonotone(ops: seq<Op>)
    requires Monotone(ops)
    ensures Monotone(WithoutPrunes(ops))
    ensures forall op :: op in WithoutPrunes(ops) ==> op in ops
  {
    if ops != [] {
      var kept := WithoutPrunes(ops[1..]);
      StillMonotone(ops[1..]);
      forall i | 0 <= i < |kept|
        ensures ops[0].time <= kept[i].time
      {
        assert kept[i] in ops[1..];
      }
    }
  }

  /** No check answer, slot taken or entry evicted of a run with a monotone clock depends on what
      was ever deactivated before its time ran out. */
  lemma DeactivationUnobservable(c: Cache, ops: seq<Op>)
    requires Valid(c) && Monotone(ops)
    ensures Trace(c, ops) == LazyTrace(c, ops)
  {
    if ops != [] {
      SameSelf(c, ops[0].time);
      SameTrace(c, c, ops, ops[0].time);
    }
  }

  /** Runs that differ only in their prunes show the same. */
  lemma PruneUnobservable(c: Cache, ops: seq<Op>, others: seq<Op>)
    requires Valid(c) && Monotone(ops) && Monotone(others)
    requires WithoutPrunes(ops) == WithoutPrunes(others)
    ensures Trace(c, ops) == Trace(c, others) == Trace(c, WithoutPrunes(ops))
  {
    DeactivationUnobservable(c, ops);
    DeactivationUnobservable(c, others);
    StillMonotone(ops);
    DeactivationUnobservable(c, WithoutPrunes(ops));
    LazySkips(c, ops);
    LazySkips(c, others);
  }
}
