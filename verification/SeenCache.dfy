/** The cache object of seen.c: a fixed array of slots updated in place. */
module SeenCache {
  import opened SeenSpec

  class SeenCache {
    const entries: array<Entry>
    var count: nat

    ghost predicate Ready()
      reads this, entries
    {
      SeenSpec.Valid(State())
    }

    ghost function State(): Cache
      reads this, entries
    {
      Cache(entries[..], count)
    }

    constructor ()
      ensures Ready() && State() == Empty() && fresh(entries)
    {
      entries := new Entry[CAPACITY](i => Entry(NO_ID, 0, false));
      count := 0;
      new;
      assert entries[..] == Empty().slots;
    }

    /** vex_seen_check */
    method Check(id: Id, now: int) returns (seen: bool)
      requires Ready()
      modifies entries
      ensures Ready() && State() == Checked(old(State()), id, now)
      ensures seen == Seen(old(State()), id, now)
    {
      hide Seen, Sweep, Hit;
      ghost var c := State();
      SweepNone(c.slots, now);
      ghost var hit := Hit(c.slots, 0, count, id, now);
      SeenIsHit(c, id, now);
      ValidKept(c, id, now);
      var i := 0;
      while i < count
        invariant 0 <= i <= count && i <= hit
        invariant Hit(c.slots, i, count, id, now) == hit
        invariant entries[..] == Sweep(c.slots, i, now)
      {
        SweepStep(c.slots, i, now);
        HitStep(c.slots, i, count, id, now);
        assert entries[i] == c.slots[i];
        if !entries[i].active {
          i := i + 1;
          continue;
        }
        if now - entries[i].timestamp > TTL_SEC {
          entries[i] := entries[i].(active := false);
          i := i + 1;
          continue;
        }
        if entries[i].id == id {
          return true;
        }
        i := i + 1;
      }
      HitEnd(c.slots, count, id, now);
      seen := false;
    }

    /** vex_seen_add */
    method Add(id: Id, now: int)
      requires Ready()
      modifies this`count, entries
      ensures Ready() && State() == Added(old(State()), id, now)
    {
      ghost var c := State();
      hide Oldest;
      ValidKept(c, id, now);
      var i := 0;
      while i < CAPACITY
        invariant 0 <= i <= CAPACITY
        invariant State() == c
        invariant Free(c.slots, i, now) == Free(c.slots, 0, now)
      {
        if !entries[i].active || now - entries[i].timestamp > TTL_SEC {
          entries[i] := Entry(id, now, true);
          if i >= count {
            count := i + 1;
          }
          return;
        }
        i := i + 1;
      }
      var oldestIdx := OldestIndex();
      entries[oldestIdx] := Entry(id, now, true);
    }

    // The eviction scan of vex_seen_add.
    method OldestIndex() returns (oldestIdx: nat)
      requires Ready()
      ensures oldestIdx == Oldest(entries[..], CAPACITY)
    {
      oldestIdx := 0;
      var oldestTime := entries[0].timestamp;
      var i := 1;
      while i < CAPACITY
        invariant 1 <= i <= CAPACITY
        invariant oldestIdx == Oldest(entries[..], i) && oldestTime == entries[oldestIdx].timestamp
      {
        if entries[i].timestamp < oldestTime {
          oldestTime := entries[i].timestamp;
          oldestIdx := i;
        }
        i := i + 1;
      }
    }

    /** vex_seen_prune */
    method Prune(now: int)
      requires Ready()
      modifies entries
      ensures Ready() && State() == Pruned(old(State()), now)
    {
      hide Sweep;
      ghost var c := State();
      ValidKept(c, NO_ID, now);
      SweepNone(c.slots, now);
      var i := 0;
      while i < count
        invariant 0 <= i <= count
        invariant entries[..] == Sweep(c.slots, i, now)
      {
        SweepStep(c.slots, i, now);
        if entries[i].active && now - entries[i].timestamp > TTL_SEC {
          entries[i] := entries[i].(active := false);
        }
        i := i + 1;
      }
    }
  }
}
