/** Which nodes some order of delivery leaves out: a condition on the net, the origin and the TTL alone. */
module FloodTree {
  import opened Bits
  import opened Options
  import opened SeenSpec
  import opened PacketCodec
  import opened MeshSpec
  import opened Network
  import opened Flood
  import opened FloodInvariant
  import opened FloodRuns

  // ---- trees of first arrivals ----

  ghost predicate In(acc: seq<Arrival>, n: nat)
  {
    exists k :: 0 <= k < |acc| && acc[k].at.node == n
  }

  // The node hangs on the origin, or on a relay before it in the list that is one link nearer.
  ghost predicate Branch(net: Net, origin: nat, ttl: nat, acc: seq<Arrival>, k: nat)
    requires |net.relays| == |net.ports| && k < |acc|
  {
    var a := acc[k];
    && HasPort(net, a.at) && a.from == FarEnd(net, a.at) && HasPort(net, a.from) && a.at.node != origin
    && 1 <= a.hops <= Farthest(ttl)
    && if a.from.node == origin then a.hops == 1
       else
         net.relays[a.from.node]
         && exists j :: 0 <= j < k && acc[j].at.node == a.from.node && acc[j].hops + 1 == a.hops
  }

  // A neighbour of the origin, or of a relay that has TTL to spare, is in the tree.
  ghost predicate Closed(net: Net, origin: nat, ttl: nat, acc: seq<Arrival>)
    requires |net.relays| == |net.ports| && origin < |net.ports|
  {
    && (forall m: nat :: Linked(net, origin, m) ==> m == origin || In(acc, m))
    && forall k :: 0 <= k < |acc| ==> Spread(net, origin, ttl, acc, acc[k])
  }

  ghost predicate Spread(net: Net, origin: nat, ttl: nat, acc: seq<Arrival>, a: Arrival)
    requires |net.relays| == |net.ports|
  {
    a.at.node < |net.ports| && net.relays[a.at.node] && a.hops < ttl ==>
      forall m: nat :: Linked(net, a.at.node, m) ==> m == origin || In(acc, m)
  }

  ghost predicate Tree(net: Net, origin: nat, ttl: nat, acc: seq<Arrival>)
    requires |net.relays| == |net.ports| && origin < |net.ports|
  {
    && (forall k :: 0 <= k < |acc| ==> Branch(net, origin, ttl, acc, k))
    && (forall j, k :: 0 <= j < k < |acc| ==> acc[j].at.node != acc[k].at.node)
    && Closed(net, origin, ttl, acc)
  }

  // Some tree leaves u out.
  ghost predicate Spares(net: Net, origin: nat, ttl: nat, u: nat)
    requires |net.relays| == |net.ports| && origin < |net.ports|
  {
    u != origin && exists acc :: Tree(net, origin, ttl, acc) && !In(acc, u)
  }

  // ---- every settled run is a tree ----

  lemma {:induction false} RunIsTree(fl: Flood, st: Story)
    requires Inv(fl, st) && Settled(fl, st)
    ensures |fl.net.relays| == |fl.net.ports| && fl.origin < |fl.net.ports|
    ensures Tree(fl.net, fl.origin, StartTtl(fl), st.accepted)
  {
    hide Inv, Settled, Reached;
    InvParts(fl, st);
    OriginInNet(fl, st);
    var acc := st.accepted;
    forall k | 0 <= k < |acc|
      ensures Branch(fl.net, fl.origin, StartTtl(fl), acc, k)
    {
      assert ArrivalGood(fl, st, k);
      FromReached(fl, st, k);
    }
    forall m: nat | Linked(fl.net, fl.origin, m)
      ensures m == fl.origin || In(acc, m)
    {
      SpreadReaches(fl, st, fl.origin, m);
      ReachedIsIn(fl, acc, m);
    }
    forall k | 0 <= k < |acc|
      ensures Spread(fl.net, fl.origin, StartTtl(fl), acc, acc[k])
    {
      var a := acc[k];
      if a.at.node < |fl.net.ports| && fl.net.relays[a.at.node] && a.hops < StartTtl(fl) {
        assert Spreads(fl, acc, a.at.node);
        forall m: nat | Linked(fl.net, a.at.node, m)
          ensures m == fl.origin || In(acc, m)
        {
          SpreadReaches(fl, st, a.at.node, m);
          ReachedIsIn(fl, acc, m);
        }
      }
    }
  }

  lemma ReachedIsIn(fl: Flood, acc: seq<Arrival>, n: nat)
    ensures Reached(fl, acc, n) <==> n == fl.origin || In(acc, n)
  {
  }

  // ---- and every tree is a run ----

  function Nobody(fl: Flood): State
  {
    State(seq(|fl.net.ports|, i => Empty()), [], fl.deadline - TTL_SEC)
  }

  lemma EmptyHasRoom(id: Id, now: int)
    ensures Valid(Empty()) && !Full(Empty(), now) && !Full(Checked(Empty(), id, now), now) && !Seen(Empty(), id, now)
  {
    assert !Live(Empty().slots[0], now);
    assert !Live(Checked(Empty(), id, now).slots[0], now);
  }

  lemma EmptyRoom(raw: seq<byte>, x: Id, now: int)
    ensures Valid(Empty()) && KeepsId(Empty(), raw, x, now, now)
  {
    hide Empty, Full, Checked, Valid;
    EmptyHasRoom(if Decoded(raw).Some? then Decoded(raw).value.id else NO_ID, now);
  }

  // The first k nodes of the tree have accepted, everything sent to others is still in flight.
  ghost predicate Growing(fl: Flood, acc: seq<Arrival>, k: nat, st: Story)
  {
    && Inv(fl, st) && k <= |acc| && st.accepted == acc[..k] && st.state.now == fl.deadline - TTL_SEC
    && (forall n :: 0 <= n < |fl.net.ports| && !Reached(fl, acc[..k], n) ==> st.state.caches[n] == Empty())
    && (forall c :: c in st.carried ==> c in st.state.flight || Arrival(c.to, c.from, c.hops) in acc[..k])
    && (forall c :: c in st.state.flight ==> Has(c, fl.packet.id))
  }

  ghost predicate Grows(fl: Flood, acc: seq<Arrival>)
  {
    && WellFormed(fl.net) && fl.origin < |fl.net.ports| && Sendable(fl.packet)
    && Tree(fl.net, fl.origin, StartTtl(fl), acc)
  }

  lemma {:induction false} Seed(fl: Flood, acc: seq<Arrival>)
    requires Grows(fl, acc)
    ensures Launch(fl, Nobody(fl)) && Ok(fl.net, Nobody(fl)) && fl.origin < |fl.net.ports|
    ensures Growing(fl, acc, 0, Begin(fl, Nobody(fl)))
  {
    hide Empty, Full, Seen, Added, Wire, Decoded, Inv, Tree, Valid;
    var s := Nobody(fl);
    EmptyHasRoom(fl.packet.id, s.now);
    assert Launch(fl, s);
    BeginInv(fl, s);
    var st := Begin(fl, s);
    assert acc[..0] == [];
    assert st.state.flight == st.carried;
    BeginHas(fl, s);
  }

  lemma BeginHas(fl: Flood, s: State)
    requires Launch(fl, s)
    ensures forall c :: c in Begin(fl, s).carried ==> Has(c, fl.packet.id)
  {
    DecodeWire(fl.packet);
  }

  lemma BranchBack(net: Net, origin: nat, ttl: nat, acc: seq<Arrival>, k: nat)
    requires WellFormed(net) && k < |acc| && |net.relays| == |net.ports| && Branch(net, origin, ttl, acc, k)
    ensures HasPort(net, acc[k].from) && FarEnd(net, acc[k].from) == acc[k].at
  {
  }

  // The connection by which node k is to get the packet is not the one by which the sender got it.
  lemma NotBack(net: Net, origin: nat, ttl: nat, acc: seq<Arrival>, j: nat, k: nat)
    requires WellFormed(net) && origin < |net.ports| && |net.relays| == |net.ports| && Tree(net, origin, ttl, acc)
    requires j < k < |acc| && acc[j].at.node == acc[k].from.node
    ensures acc[j].at != acc[k].from
  {
    hide WellFormed, Closed;
    assert Branch(net, origin, ttl, acc, j) && Branch(net, origin, ttl, acc, k);
    BranchBack(net, origin, ttl, acc, k);
    assert acc[j].from != acc[k].at;
  }

  // The next node's copy has been sent.
  lemma {:induction false} NextSent(fl: Flood, acc: seq<Arrival>, k: nat, st: Story)
    requires Grows(fl, acc) && Growing(fl, acc, k, st) && k < |acc|
    ensures Carries(st.carried, acc[k].from, acc[k].hops)
  {
    hide Empty, Seen, Decoded, Wire, After, Closed, WellFormed, Transmissions;
    SizesOf(fl);
    var a := acc[k];
    assert Branch(fl.net, fl.origin, StartTtl(fl), acc, k);
    if a.from.node != fl.origin {
      var j :| 0 <= j < k && acc[j].at.node == a.from.node && acc[j].hops + 1 == a.hops;
      assert st.accepted[j] == acc[j];
      assert Branch(fl.net, fl.origin, StartTtl(fl), acc, j);
      NotBack(fl.net, fl.origin, StartTtl(fl), acc, j, k);
      assert PassedOn(fl, st.carried, st.accepted[j]);
    }
  }

  lemma SizesOf(fl: Flood)
    requires WellFormed(fl.net)
    ensures |fl.net.relays| == |fl.net.ports|
  {
  }

  lemma {:induction false} NextFlying(fl: Flood, acc: seq<Arrival>, k: nat, st: Story) returns (i: nat)
    requires Grows(fl, acc) && Growing(fl, acc, k, st) && k < |acc|
    ensures i < |st.state.flight| && st.state.flight[i] in st.carried
    ensures st.state.flight[i].from == acc[k].from && st.state.flight[i].to == acc[k].at
    ensures st.state.flight[i].hops == acc[k].hops
    ensures HasPort(fl.net, acc[k].at) && !Reached(fl, acc[..k], acc[k].at.node)
  {
    hide Inv, Empty, Has, WellFormed, Closed;
    NextSent(fl, acc, k, st);
    SizesOf(fl);
    InvParts(fl, st);
    var a := acc[k];
    assert Branch(fl.net, fl.origin, StartTtl(fl), acc, k);
    BranchBack(fl.net, fl.origin, StartTtl(fl), acc, k);
    assert !In(acc[..k], a.at.node);
    var c :| c in st.carried && c.from == a.from && c.hops == a.hops;
    assert GoodCopy(fl, st.accepted, c);
    i :| 0 <= i < |st.state.flight| && st.state.flight[i] == c;
  }

  lemma {:induction false} GrowStep(fl: Flood, acc: seq<Arrival>, k: nat, st: Story) returns (e: Event)
    requires Grows(fl, acc) && Growing(fl, acc, k, st) && k < |acc|
    ensures Ok(fl.net, st.state) && Calm(fl, st.state, e) && Growing(fl, acc, k + 1, Next(fl, st, e))
  {
    hide Inv, Empty, Has, Tree, Seen, Full, Decoded, Wire, Onward, Added, Checked, Valid, CacheAfter, Calm, KeepsId,
      Fresh;
    var i := NextFlying(fl, acc, k, st);
    InvParts(fl, st);
    var s, c, now := st.state, st.state.flight[i], st.state.now;
    e := Deliver(i, now);
    EmptyTakes(fl, st, i);
    StepKeeps(fl, st, e);
    OnwardHas(fl.net, s.caches[c.to.node], c, now, fl.packet.id);
    Removed(s.flight, i, Onward(fl.net, s.caches[c.to.node], c, now));
    assert acc[..k + 1] == acc[..k] + [acc[k]] && acc[k] == Arrival(c.to, c.from, c.hops);
    GrownParts(fl, acc, k);
  }

  lemma GrownParts(fl: Flood, acc: seq<Arrival>, k: nat)
    requires k < |acc|
    ensures forall n: nat :: Reached(fl, acc[..k + 1], n) <==> Reached(fl, acc[..k], n) || n == acc[k].at.node
    ensures forall n: nat :: In(acc[..k + 1], n) <==> In(acc[..k], n) || n == acc[k].at.node
  {
    var a, b := acc[..k], acc[..k + 1];
    assert b == a + [acc[k]];
    forall n: nat
      ensures In(b, n) <==> In(a, n) || n == acc[k].at.node
      ensures Reached(fl, b, n) <==> Reached(fl, a, n) || n == acc[k].at.node
    {
      assert b[k] == acc[k];
      if In(a, n) {
        var j :| 0 <= j < |a| && a[j].at.node == n;
        assert b[j] == a[j];
      }
      ReachedIsIn(fl, a, n);
      ReachedIsIn(fl, b, n);
    }
  }

  // A node with an empty cache takes the packet.
  lemma {:induction false} EmptyTakes(fl: Flood, st: Story, i: nat)
    requires Inv(fl, st) && i < |st.state.flight| && st.state.now == fl.deadline - TTL_SEC
    requires var c := st.state.flight[i];
      c in st.carried && c.to.node < |st.state.caches| && st.state.caches[c.to.node] == Empty()
    ensures Ok(fl.net, st.state) && Calm(fl, st.state, Deliver(i, st.state.now))
    ensures Accepting(fl, st.state, Deliver(i, st.state.now))
  {
    hide Inv, Empty, Seen, Wire, Decoded, After, Valid, SentBy, LinksOnce, ArrivalGood, KeepsId;
    InvParts(fl, st);
    var c := st.state.flight[i];
    assert GoodCopy(fl, st.accepted, c);
    CarriedHas(fl, st.accepted, c);
    EmptyHasRoom(fl.packet.id, st.state.now);
    EmptyRoom(c.wire, fl.packet.id, st.state.now);
  }

  // ---- the rest are duplicates ----

  ghost predicate Draining(fl: Flood, acc: seq<Arrival>, st: Story)
  {
    && Inv(fl, st) && st.accepted == acc && st.state.now == fl.deadline - TTL_SEC
    && forall c :: c in st.state.flight ==> Has(c, fl.packet.id) && Reached(fl, acc, c.to.node)
  }

  lemma {:induction false} GrownDrains(fl: Flood, acc: seq<Arrival>, st: Story)
    requires Grows(fl, acc) && Growing(fl, acc, |acc|, st)
    ensures Draining(fl, acc, st)
  {
    hide Inv, Has, Empty, Wire, After, Valid;
    InvParts(fl, st);
    assert acc[..|acc|] == acc;
    forall c | c in st.state.flight
      ensures Reached(fl, acc, c.to.node)
    {
      FlyingCarried(fl, st, c);
      assert GoodCopy(fl, acc, c);
      ReachedIsIn(fl, acc, c.to.node);
      if c.from.node != fl.origin {
        var k :| 0 <= k < |acc| && acc[k].at.node == c.from.node && acc[k].hops + 1 == c.hops && acc[k].at != c.from;
        assert Branch(fl.net, fl.origin, StartTtl(fl), acc, k);
        assert Spread(fl.net, fl.origin, StartTtl(fl), acc, acc[k]);
      }
    }
  }

  lemma FlyingCarried(fl: Flood, st: Story, c: Copy)
    requires Inv(fl, st) && c in st.state.flight && Has(c, fl.packet.id)
    ensures c in st.carried
  {
  }

  lemma {:induction false} DrainStep(fl: Flood, acc: seq<Arrival>, st: Story)
    requires Draining(fl, acc, st) && st.state.flight != []
    ensures var e := Deliver(0, st.state.now);
      && Ok(fl.net, st.state) && Calm(fl, st.state, e) && Draining(fl, acc, Next(fl, st, e))
      && |Next(fl, st, e).state.flight| == |st.state.flight| - 1
  {
    hide Seen, Wire, Decoded, After, Valid, Full, Inv, KeepsId, CacheAfter;
    InvParts(fl, st);
    var c, x, s := st.state.flight[0], fl.packet.id, st.state;
    assert c in s.flight;
    SeenThere(fl, st, c.to.node);
    TimeForgets(s.caches[c.to.node], x, s.now, fl.deadline);
    DuplicateQuiet(fl, s, Deliver(0, s.now));
    SeenHasRoom(s.caches[c.to.node], c, x, s.now);
    StepKeeps(fl, st, Deliver(0, s.now));
    assert s.flight[..0] + s.flight[1..] + [] == s.flight[1..];
  }

  lemma SeenThere(fl: Flood, st: Story, n: nat)
    requires Inv(fl, st) && n < |fl.net.ports| && Reached(fl, st.accepted, n)
    ensures n < |st.state.caches| && Seen(st.state.caches[n], fl.packet.id, fl.deadline)
  {
  }

  lemma SeenHasRoom(cache: Cache, c: Copy, x: Id, now: int)
    requires Valid(cache) && Has(c, x) && Seen(cache, x, now)
    ensures KeepsId(cache, c.wire, x, now, now)
  {
  }

  // ---- one run from the steps ----

  lemma {:induction false} TellMore(fl: Flood, st: Story, es: seq<Event>, e: Event)
    requires Ok(fl.net, st.state)
    ensures Tell(fl, st, es + [e]) == Next(fl, Tell(fl, st, es), e)
    ensures CalmRun(fl, st, es) && Calm(fl, Tell(fl, st, es).state, e) ==> CalmRun(fl, st, es + [e])
    decreases |es|
  {
    hide Calm, Next, Ok;
    if es == [] {
      assert [] + [e] == [e] && [e][1..] == [];
      NextOk(fl, st, e);
      TellNone(fl, st, e);
    } else {
      NextOk(fl, st, es[0]);
      assert (es + [e])[0] == es[0] && (es + [e])[1..] == es[1..] + [e];
      TellMore(fl, Next(fl, st, es[0]), es[1..], e);
    }
  }

  lemma {:induction false} NextOk(fl: Flood, st: Story, e: Event)
    requires Ok(fl.net, st.state)
    ensures Ok(fl.net, Next(fl, st, e).state)
  {
    StepOk(fl.net, st.state, e);
  }

  lemma {:induction false} TellNone(fl: Flood, st: Story, e: Event)
    requires Ok(fl.net, st.state)
    ensures Tell(fl, st, []) == st && Tell(fl, st, [e]) == Next(fl, st, e)
    ensures Calm(fl, st.state, e) ==> CalmRun(fl, st, [e])
  {
    hide Calm, Next, Ok;
    NextOk(fl, st, e);
    assert [e][1..] == [];
  }

  lemma {:induction false} MomentMore(fl: Flood, s: State, st: Story, e: Event)
    requires MomentFrom(fl, s, st) && Ok(fl.net, st.state) && Calm(fl, st.state, e)
    ensures MomentFrom(fl, s, Next(fl, st, e))
  {
    hide Calm, Next, Begin, CalmRun, Valid, WellFormed, Seen, Full;
    var es :| Launched(fl, s, es) && st == Tell(fl, Begin(fl, s), es);
    TellMore(fl, Begin(fl, s), es, e);
    assert Launched(fl, s, es + [e]);
  }

  lemma {:induction false} BeginMoment(fl: Flood, s: State)
    requires Launch(fl, s)
    ensures MomentFrom(fl, s, Begin(fl, s))
  {
    BeginInv(fl, s);
    assert Launched(fl, s, []);
    assert Tell(fl, Begin(fl, s), []) == Begin(fl, s);
  }

  lemma {:induction false} GrowAll(fl: Flood, acc: seq<Arrival>, k: nat) returns (st: Story)
    requires Grows(fl, acc) && k <= |acc|
    ensures MomentFrom(fl, Nobody(fl), st) && Growing(fl, acc, k, st)
  {
    hide Growing, Grows, MomentFrom, Launch, Calm, Next, Begin;
    if k == 0 {
      Seed(fl, acc);
      BeginMoment(fl, Nobody(fl));
      st := Begin(fl, Nobody(fl));
    } else {
      var before := GrowAll(fl, acc, k - 1);
      var e := GrowStep(fl, acc, k - 1, before);
      MomentMore(fl, Nobody(fl), before, e);
      st := Next(fl, before, e);
    }
  }

  lemma {:induction false} DrainAll(fl: Flood, acc: seq<Arrival>, st: Story) returns (st': Story)
    requires MomentFrom(fl, Nobody(fl), st) && Draining(fl, acc, st)
    ensures MomentFrom(fl, Nobody(fl), st') && Settled(fl, st') && st'.accepted == acc
    decreases |st.state.flight|
  {
    if st.state.flight == [] {
      st' := st;
    } else {
      hide Draining, MomentFrom, Calm, Next, Settled;
      DrainStep(fl, acc, st);
      MomentMore(fl, Nobody(fl), st, Deliver(0, st.state.now));
      st' := DrainAll(fl, acc, Next(fl, st, Deliver(0, st.state.now)));
    }
  }

  lemma {:induction false} TreeIsRun(fl: Flood, acc: seq<Arrival>) returns (st: Story)
    requires Grows(fl, acc)
    ensures Moment(fl, st) && Settled(fl, st) && st.accepted == acc
  {
    hide Grows, Growing, MomentFrom, Draining, Settled;
    var grown := GrowAll(fl, acc, |acc|);
    GrownDrains(fl, acc, grown);
    st := DrainAll(fl, acc, grown);
  }

  // ---- who may be missed ----

  ghost predicate Misses(fl: Flood, st: Story, u: nat)
  {
    Moment(fl, st) && Settled(fl, st) && !Reached(fl, st.accepted, u)
  }

  /** Some run leaves a node without the packet, with nothing left in flight, exactly when some tree of first
      arrivals leaves it out: a matter of the net, the origin and the TTL. */
  lemma {:induction false} MissedIff(fl: Flood, u: nat)
    requires WellFormed(fl.net) && fl.origin < |fl.net.ports| && Sendable(fl.packet) && u < |fl.net.ports|
    ensures (exists st :: Misses(fl, st, u)) <==> Spares(fl.net, fl.origin, StartTtl(fl), u)
  {
    hide Moment, Settled, Inv, Tree, Reached, In, WellFormed;
    SizesOf(fl);
    if exists st :: Misses(fl, st, u) {
      var st :| Misses(fl, st, u);
      MomentInv(fl, st);
      RunIsTree(fl, st);
      ReachedIsIn(fl, st.accepted, u);
    }
    if Spares(fl.net, fl.origin, StartTtl(fl), u) {
      var acc :| Tree(fl.net, fl.origin, StartTtl(fl), acc) && !In(acc, u);
      var st := TreeIsRun(fl, acc);
      ReachedIsIn(fl, acc, u);
      assert Misses(fl, st, u);
    }
  }

  // Every node within TTL links has the packet in the end, in any order.
  ghost predicate ReachesAllNear(fl: Flood)
  {
    forall st, u: nat :: u < |fl.net.ports| && Within(fl.net, fl.origin, u, Reach(fl)) ==> !Misses(fl, st, u)
  }

  /** The promise that every node within TTL links is reached holds exactly when no tree leaves one of them out. */
  lemma {:induction false} AllNearIff(fl: Flood)
    requires WellFormed(fl.net) && fl.origin < |fl.net.ports| && Sendable(fl.packet)
    ensures ReachesAllNear(fl) <==>
      forall u: nat :: u < |fl.net.ports| && Within(fl.net, fl.origin, u, Reach(fl)) ==>
        !Spares(fl.net, fl.origin, StartTtl(fl), u)
  {
    hide Misses, Spares, Within, WellFormed;
    SizesOf(fl);
    forall u: nat | u < |fl.net.ports|
      ensures (exists st :: Misses(fl, st, u)) <==> Spares(fl.net, fl.origin, StartTtl(fl), u)
    {
      MissedIff(fl, u);
    }
  }
}
