/** The duplicate-packet cache of seen.c as functions on its slots: what one call answers and leaves behind. */
module SeenSpec {
  import opened Bits

  const CAPACITY: nat := 1000
  const TTL_SEC: int := 60

  type Id = seq<byte>

  const NO_ID: Id := [0, 0, 0, 0, 0, 0, 0, 0]

  datatype Entry = Entry(id: Id, timestamp: int, active: bool)

  // The entries and the high-water mark.
  datatype Cache = Cache(slots: seq<Entry>, count: nat)

  predicate Expired(e: Entry, now: int) { now - e.timestamp > TTL_SEC }

  predicate Live(e: Entry, now: int) { e.active && !Expired(e, now) }

  predicate Matches(e: Entry, id: Id, now: int) { Live(e, now) && e.id == id }

  // Nothing active lies at or above the high-water mark.
  ghost predicate Valid(c: Cache)
  {
    && |c.slots| == CAPACITY && c.count <= CAPACITY
    && forall i :: c.count <= i < CAPACITY ==> !c.slots[i].active
  }

  function Empty(): (c: Cache)
    ensures Valid(c) && c.count == 0
  {
    Cache(seq(CAPACITY, i => Entry(NO_ID, 0, false)), 0)
  }

  // ---- check ----

  // The first live slot from i on that holds the id, or n.
  function Hit(s: seq<Entry>, i: nat, n: nat, id: Id, now: int): (r: nat)
    requires i <= n <= |s|
    ensures i <= r <= n
    ensures forall k :: i <= k < r ==> !Matches(s[k], id, now)
    ensures r < n ==> Matches(s[r], id, now)
    decreases n - i
  {
    if i == n || Matches(s[i], id, now) then i else Hit(s, i + 1, n, id, now)
  }

  ghost predicate Seen(c: Cache, id: Id, now: int)
  {
    exists i :: 0 <= i < c.count && i < |c.slots| && Matches(c.slots[i], id, now)
  }

  // Expired slots before n are deactivated.
  function Sweep(s: seq<Entry>, n: nat, now: int): (t: seq<Entry>)
    ensures |t| == |s|
  {
    seq(|s|, i requires 0 <= i < |s| =>
          if i < n && s[i].active && Expired(s[i], now) then s[i].(active := false) else s[i])
  }

  // A check stops at the first hit; only the slots before it are swept.
  function Checked(c: Cache, id: Id, now: int): (c': Cache)
    requires c.count <= |c.slots|
  {
    c.(slots := Sweep(c.slots, Hit(c.slots, 0, c.count, id, now), now))
  }

  lemma SweepNone(s: seq<Entry>, now: int)
    ensures Sweep(s, 0, now) == s
  {
  }

  // Sweeping one more slot.
  lemma SweepStep(s: seq<Entry>, n: nat, now: int)
    requires n < |s|
    ensures Sweep(s, n, now)[n] == s[n]
    ensures Sweep(s, n + 1, now) ==
      if s[n].active && Expired(s[n], now) then Sweep(s, n, now)[n := s[n].(active := false)] else Sweep(s, n, now)
  {
  }

  lemma HitStep(s: seq<Entry>, i: nat, n: nat, id: Id, now: int)
    requires i < n <= |s|
    ensures Hit(s, i, n, id, now) == if Matches(s[i], id, now) then i else Hit(s, i + 1, n, id, now)
    ensures i <= Hit(s, i, n, id, now)
  {
  }

  lemma HitEnd(s: seq<Entry>, n: nat, id: Id, now: int)
    requires n <= |s|
    ensures Hit(s, n, n, id, now) == n
  {
  }

  // ---- add ----

  // The first inactive or expired slot from i on, or the end.
  function Free(s: seq<Entry>, i: nat, now: int): (r: nat)
    requires i <= |s|
    ensures i <= r <= |s|
    ensures forall k :: i <= k < r ==> Live(s[k], now)
    ensures r < |s| ==> !Live(s[r], now)
    decreases |s| - i
  {
    if i == |s| || !Live(s[i], now) then i else Free(s, i + 1, now)
  }

  // The first slot among the first n with the smallest timestamp.
  function Oldest(s: seq<Entry>, n: nat): (r: nat)
    requires 1 <= n <= |s|
    ensures r < n
    ensures forall k :: 0 <= k < n ==> s[r].timestamp <= s[k].timestamp
    ensures forall k :: 0 <= k < r ==> s[r].timestamp < s[k].timestamp
    decreases n, |s|
  {
    if n == 1 then 0
    else
      var o := Oldest(s, n - 1);
      if s[n - 1].timestamp < s[o].timestamp then n - 1 else o
  }

  predicate Full(c: Cache, now: int)
  {
    Free(c.slots, 0, now) == |c.slots|
  }

  function SlotFor(c: Cache, now: int): (i: nat)
    requires |c.slots| == CAPACITY
    ensures i < CAPACITY
    ensures !Full(c, now) ==> !Live(c.slots[i], now) && forall k :: 0 <= k < i ==> Live(c.slots[k], now)
    ensures Full(c, now) ==>
      forall k :: 0 <= k < CAPACITY ==> Live(c.slots[k], now) && c.slots[i].timestamp <= c.slots[k].timestamp
    ensures Full(c, now) ==> forall k :: 0 <= k < i ==> c.slots[i].timestamp < c.slots[k].timestamp
  {
    if Full(c, now) then Oldest(c.slots, CAPACITY) else Free(c.slots, 0, now)
  }

  function Added(c: Cache, id: Id, now: int): (c': Cache)
    requires |c.slots| == CAPACITY
  {
    var i := SlotFor(c, now);
    Cache(c.slots[i := Entry(id, now, true)], if i >= c.count && !Full(c, now) then i + 1 else c.count)
  }

  // The next add overwrites an entry of x.
  predicate Drops(c: Cache, x: Id, now: int)
    requires |c.slots| == CAPACITY
  {
    Full(c, now) && c.slots[SlotFor(c, now)].id == x
  }

  function Pruned(c: Cache, now: int): (c': Cache)
  {
    c.(slots := Sweep(c.slots, c.count, now))
  }

  // ---- what the calls keep ----

  lemma ValidKept(c: Cache, id: Id, now: int)
    requires Valid(c)
    ensures Valid(Checked(c, id, now)) && Valid(Added(c, id, now)) && Valid(Pruned(c, now))
  {
  }

  lemma SeenIsHit(c: Cache, id: Id, now: int)
    requires c.count <= |c.slots|
    ensures Seen(c, id, now) <==> Hit(c.slots, 0, c.count, id, now) < c.count
  {
  }

  // Looking and pruning change no later answer.
  lemma LookKeeps(c: Cache, id: Id, x: Id, now: int, later: int)
    requires Valid(c) && now <= later
    ensures Seen(Checked(c, id, now), x, later) == Seen(c, x, later)
    ensures Seen(Pruned(c, now), x, later) == Seen(c, x, later)
  {
    var p, q := Checked(c, id, now), Pruned(c, now);
    assert forall i :: 0 <= i < c.count ==> Matches(p.slots[i], x, later) == Matches(c.slots[i], x, later);
    assert forall i :: 0 <= i < c.count ==> Matches(q.slots[i], x, later) == Matches(c.slots[i], x, later);
  }

  // An added id is seen until it expires; so is every other id that was, unless its entry is overwritten.
  lemma AddKeeps(c: Cache, id: Id, x: Id, now: int, later: int)
    requires Valid(c) && now <= later
    ensures later - now <= TTL_SEC ==> Seen(Added(c, id, now), id, later)
    ensures !Drops(c, x, now) && Seen(c, x, later) ==> Seen(Added(c, id, now), x, later)
    ensures x != id && Seen(Added(c, id, now), x, later) ==> Seen(c, x, later)
  {
    var a, i := Added(c, id, now), SlotFor(c, now);
    if later - now <= TTL_SEC {
      assert Matches(a.slots[i], id, later);
    }
    if !Drops(c, x, now) && Seen(c, x, later) {
      var k :| 0 <= k < c.count && Matches(c.slots[k], x, later);
      assert k != i;
      assert Matches(a.slots[k], x, later);
    }
    if x != id && Seen(a, x, later) {
      var k :| 0 <= k < a.count && Matches(a.slots[k], x, later);
      assert k != i;
      assert Matches(c.slots[k], x, later);
    }
  }

  // Time only makes the cache forget.
  lemma TimeForgets(c: Cache, x: Id, now: int, later: int)
    requires now <= later && Seen(c, x, later)
    ensures Seen(c, x, now)
  {
    var k :| 0 <= k < c.count && k < |c.slots| && Matches(c.slots[k], x, later);
    assert Matches(c.slots[k], x, now);
  }
}
