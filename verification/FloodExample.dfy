/** Delivery order matters, a late copy is taken again, and the coverage bound is the best there is: two nets. */
module FloodExample {
  import opened SeenSpec
  import opened PacketCodec
  import opened MeshSpec
  import opened Network
  import opened Flood
  import opened FloodInvariant
  import opened FloodRuns
  import opened FloodFaith
  import opened FloodTree
  import opened NodeHistory

  // A triangle 0, 1, 2 and a fourth node that only 1 can reach.
  const NET: Net := Net([[Port(1, 0), Port(2, 0)], [Port(0, 0), Port(2, 1), Port(3, 0)], [Port(0, 1), Port(1, 1)],
                         [Port(1, 2)]], [true, true, true, true])

  lemma NetPorts()
    ensures AllRelay(NET) && |NET.ports| == |NET.relays| == 4
    ensures NET.ports[0] == [Port(1, 0), Port(2, 0)] && NET.ports[1] == [Port(0, 0), Port(2, 1), Port(3, 0)]
    ensures NET.ports[2] == [Port(0, 1), Port(1, 1)] && NET.ports[3] == [Port(1, 2)]
  {
  }

  lemma NetPort(p: Port)
    requires HasPort(NET, p)
    ensures HasPort(NET, FarEnd(NET, p)) && FarEnd(NET, p) != p && FarEnd(NET, FarEnd(NET, p)) == p
  {
    hide NET;
    NetPorts();
    if p.node == 0 {
    } else if p.node == 1 {
    } else if p.node == 2 {
    }
  }

  lemma NetFine()
    ensures WellFormed(NET) && AllRelay(NET) && |NET.ports| == |NET.relays| == 4
    ensures NET.ports[0] == [Port(1, 0), Port(2, 0)] && NET.ports[1] == [Port(0, 0), Port(2, 1), Port(3, 0)]
    ensures NET.ports[2] == [Port(0, 1), Port(1, 1)] && NET.ports[3] == [Port(1, 2)]
  {
    hide NET, FarEnd;
    NetPorts();
    forall p | HasPort(NET, p)
      ensures HasPort(NET, FarEnd(NET, p)) && FarEnd(NET, p) != p && FarEnd(NET, FarEnd(NET, p)) == p
    {
      NetPort(p);
    }
  }

  lemma ThreeNear()
    ensures Within(NET, 0, 3, 2)
  {
    NetFine();
    hide NET;
    assert HasPort(NET, Port(0, 0)) && HasPort(NET, Port(1, 2));
    assert Linked(NET, 0, 1) && Linked(NET, 1, 3);
    assert Path(NET, [0, 1, 3]);
  }

  // Node 2 first, and node 1 from it, with no TTL left to pass the packet on.
  lemma LongWayRound()
    ensures |NET.relays| == |NET.ports| == 4 && Spares(NET, 0, 2, 3)
  {
    hide NET, WellFormed;
    NetFine();
    var acc := [Arrival(Port(2, 0), Port(0, 1), 1), Arrival(Port(1, 1), Port(2, 1), 2)];
    assert acc[0].at.node == 2 && acc[1].at.node == 1;
    assert In(acc, 1) && In(acc, 2) && !In(acc, 3);
    assert Branch(NET, 0, 2, acc, 0) && Branch(NET, 0, 2, acc, 1);
    assert forall m: nat :: Linked(NET, 0, m) ==> m == 1 || m == 2;
    assert forall m: nat :: Linked(NET, 2, m) ==> m == 0 || m == 1;
    assert Tree(NET, 0, 2, acc);
  }

  /** Not every node within TTL links gets the packet in every order: for each packet of TTL 2 there
      is a run in which node 3, two links from the origin, never does. */
  lemma {:induction false} LowTtlFirst(fl: Flood) returns (st: Story)
    requires Sendable(fl.packet) && fl.packet.ttl == 2 && fl.net == NET && fl.origin == 0
    ensures Moment(fl, st) && Settled(fl, st) && AllRelay(NET)
    ensures Within(NET, 0, 3, 2) && !Reached(fl, st.accepted, 3)
  {
    hide NET, Moment, Settled, Spares, Within, Reached;
    NetFine();
    ThreeNear();
    LongWayRound();
    assert StartTtl(fl) == 2;
    MissedIff(fl, 3);
    st :| Misses(fl, st, 3);
  }

  // ---- a copy that comes after sixty seconds ----

  const ROUND: seq<Arrival> := [Arrival(Port(1, 0), Port(0, 0), 1), Arrival(Port(2, 0), Port(0, 1), 1),
                                Arrival(Port(3, 0), Port(1, 2), 2)]

  lemma RoundTree(ttl: nat)
    requires ttl >= 2
    ensures |NET.relays| == |NET.ports| == 4 && |ROUND| == 3 && Tree(NET, 0, ttl, ROUND)
  {
    hide NET, WellFormed;
    NetFine();
    var acc := ROUND;
    assert acc[0].at.node == 1 && acc[1].at.node == 2 && acc[2].at.node == 3;
    assert In(acc, 1) && In(acc, 2) && In(acc, 3);
    assert Branch(NET, 0, ttl, acc, 0) && Branch(NET, 0, ttl, acc, 1) && Branch(NET, 0, ttl, acc, 2);
    assert forall n: nat, m: nat :: Linked(NET, n, m) ==> m < 4;
  }

  // Nodes 1 and 2 have the packet from the origin; the copy from 1 to 2 is still on its way.
  lemma {:induction false} Underway(fl: Flood, st: Story) returns (i: nat)
    requires Grows(fl, ROUND) && Growing(fl, ROUND, 2, st) && fl.net == NET && fl.origin == 0 && StartTtl(fl) >= 2
    ensures Ok(fl.net, st.state) && i < |st.state.flight| && st.state.flight[i].to == Port(2, 1)
    ensures Has(st.state.flight[i], fl.packet.id) && |st.accepted| == 2 && st.accepted[1].at.node == 2
  {
    hide NET, Inv, Has, Grows, Empty, WellFormed, Transmissions;
    NetFine();
    InvParts(fl, st);
    assert st.accepted[0] == ROUND[0] && st.accepted[1] == ROUND[1];
    SentOnward(fl, st, 0, Port(1, 1));
    var c :| c in st.carried && c.from == Port(1, 1) && c.hops == 2;
    assert GoodCopy(fl, st.accepted, c);
    assert Arrival(c.to, c.from, c.hops) !in ROUND[..2];
    i :| 0 <= i < |st.state.flight| && st.state.flight[i] == c;
  }

  lemma SentOnward(fl: Flood, st: Story, k: nat, p: Port)
    requires Inv(fl, st) && k < |st.accepted| && HasPort(fl.net, p) && p.node == st.accepted[k].at.node
    requires p != st.accepted[k].at && st.accepted[k].hops < StartTtl(fl) && fl.net.relays[p.node]
    ensures Carries(st.carried, p, st.accepted[k].hops + 1)
  {
    assert PassedOn(fl, st.carried, st.accepted[k]);
  }

  lemma {:induction false} LateTaken(fl: Flood, st: Story, i: nat, later: int)
    requires Ok(fl.net, st.state) && i < |st.state.flight| && st.state.now <= later
    requires var c := st.state.flight[i];
      Has(c, fl.packet.id) && c.to.node < |st.state.caches| && !Seen(st.state.caches[c.to.node], fl.packet.id, later)
    ensures var c, st' := st.state.flight[i], Next(fl, st, Tick(later));
      Ok(fl.net, st'.state)
      && Next(fl, st', Deliver(i, later)).accepted == st.accepted + [Arrival(c.to, c.from, c.hops)]
  {
    hide Seen, Has, Valid, WellFormed, CacheAfter, Onward;
    NextOk(fl, st, Tick(later));
  }

  /** Not every packet traverses each node only once: for each packet of TTL 2 or more there is a run in which
      node 2 takes it twice, the second time from a copy that was on its way for more than sixty seconds. */
  lemma {:induction false} TakenTwice(fl: Flood) returns (es: seq<Event>)
    requires Sendable(fl.packet) && fl.packet.ttl >= 2 && fl.net == NET && fl.origin == 0
    ensures Launch(fl, Nobody(fl)) && Ok(fl.net, Begin(fl, Nobody(fl)).state)
    ensures var acc := Tell(fl, Begin(fl, Nobody(fl)), es).accepted;
      |acc| == 3 && acc[1].at.node == acc[2].at.node == 2
  {
    hide NET, ROUND, Growing, Tree, Launch, Calm, Inv, Empty, Seen, Decoded, Valid, WellFormed, CallsAt, Next, Has,
      Past, Tell;
    NetFine();
    RoundTree(StartTtl(fl));
    assert Grows(fl, ROUND);
    Seed(fl, ROUND);
    var st := GrowAll(fl, ROUND, 2);
    var i := Underway(fl, st);
    var start, later := Begin(fl, Nobody(fl)), st.state.now + TTL_SEC + 1;
    es :| Launched(fl, Nobody(fl), es) && st == Tell(fl, start, es);
    TellPast(fl, es, 2);
    AllForgotten(fl.net, st.state, 2, CallsAt(fl.net, Nobody(fl), [Originate(0, fl.packet)] + es, 2), fl.packet.id,
                 later);
    TellMore(fl, start, es, Tick(later));
    LateTaken(fl, st, i, later);
    TellMore(fl, start, es + [Tick(later)], Deliver(i, later));
    es := es + [Tick(later)] + [Deliver(i, later)];
  }

  lemma {:induction false} TellIsPlay(fl: Flood, st: Story, es: seq<Event>)
    requires Ok(fl.net, st.state)
    ensures Tell(fl, st, es).state == Play(fl.net, st.state, es)
    decreases |es|
  {
    if es != [] {
      NextOk(fl, st, es[0]);
      TellIsPlay(fl, Next(fl, st, es[0]), es[1..]);
    }
  }

  // The cache of a node, once the origin of an idle net has started.
  lemma {:induction false} TellPast(fl: Flood, es: seq<Event>, n: nat)
    requires Ok(fl.net, Nobody(fl)) && fl.origin < |fl.net.ports| && n < |fl.net.ports|
    ensures Ok(fl.net, Begin(fl, Nobody(fl)).state)
    ensures Past(fl.net, Tell(fl, Begin(fl, Nobody(fl)), es).state, n,
                 CallsAt(fl.net, Nobody(fl), [Originate(fl.origin, fl.packet)] + es, n))
  {
    hide Past, CallsAt, Empty, Network.Step, Tell, Valid, WellFormed;
    var s, e := Nobody(fl), Originate(fl.origin, fl.packet);
    StepOk(fl.net, s, e);
    TellIsPlay(fl, Begin(fl, s), es);
    EmptyPast(fl.net, s, n);
    PlayHistory(fl.net, s, [e] + es, n, []);
    assert ([e] + es)[1..] == es;
    assert [] + CallsAt(fl.net, s, [e] + es, n) == CallsAt(fl.net, s, [e] + es, n);
  }

  // ---- the bound of the coverage theorem is the best there is ----

  // Nodes 0 to n - 1 in a row. All but the first have their left neighbour in slot 0.
  function Right(i: nat): nat { if i == 0 then 0 else 1 }

  function ChainPorts(n: nat, i: nat): seq<Port>
  {
    (if i == 0 then [] else [Port(i - 1, Right(i - 1))]) + (if i + 1 < n then [Port(i + 1, 0)] else [])
  }

  function Chain(n: nat): Net
  {
    Net(seq(n, i requires 0 <= i < n => ChainPorts(n, i)), seq(n, i => true))
  }

  lemma ChainIs(n: nat)
    ensures |Chain(n).ports| == |Chain(n).relays| == n && AllRelay(Chain(n))
    ensures forall i :: 0 <= i < n ==> Chain(n).ports[i] == ChainPorts(n, i)
  {
  }

  lemma ChainPort(n: nat, p: Port)
    requires HasPort(Chain(n), p)
    ensures HasPort(Chain(n), FarEnd(Chain(n), p)) && FarEnd(Chain(n), p) != p
    ensures FarEnd(Chain(n), FarEnd(Chain(n), p)) == p
    ensures FarEnd(Chain(n), p).node == if p.slot < Right(p.node) then p.node - 1 else p.node + 1
  {
    hide Chain;
    ChainIs(n);
  }

  lemma ChainLinked(n: nat, a: nat, b: nat)
    ensures Linked(Chain(n), a, b) <==> a < n && b < n && (b == a + 1 || a == b + 1)
  {
    hide Chain;
    ChainIs(n);
    if Linked(Chain(n), a, b) {
      var p: Port :| HasPort(Chain(n), p) && p.node == a && FarEnd(Chain(n), p).node == b;
      ChainPort(n, p);
    }
    if a < n && b < n && b == a + 1 {
      assert HasPort(Chain(n), Port(a, Right(a)));
    } else if a < n && b < n && a == b + 1 {
      assert HasPort(Chain(n), Port(a, 0));
    }
  }

  lemma ChainFine(n: nat)
    ensures WellFormed(Chain(n)) && AllRelay(Chain(n)) && |Chain(n).ports| == n
    ensures forall a: nat, b: nat :: Linked(Chain(n), a, b) <==> a < n && b < n && (b == a + 1 || a == b + 1)
  {
    hide Chain, FarEnd, Linked, HasPort;
    ChainIs(n);
    forall a: nat, b: nat
      ensures Linked(Chain(n), a, b) <==> a < n && b < n && (b == a + 1 || a == b + 1)
    {
      ChainLinked(n, a, b);
    }
    forall p | HasPort(Chain(n), p)
      ensures HasPort(Chain(n), FarEnd(Chain(n), p)) && FarEnd(Chain(n), p) != p
      ensures FarEnd(Chain(n), FarEnd(Chain(n), p)) == p
    {
      ChainPort(n, p);
    }
  }

  lemma ChainConnected(n: nat)
    ensures Connected(Chain(n))
  {
    ChainFine(n);
    hide Chain;
    forall a: nat, b: nat | a < n && b < n
      ensures Joined(Chain(n), a, b)
    {
      var p := if a <= b then seq(b - a + 1, i => a + i) else seq(a - b + 1, i requires 0 <= i <= a - b => a - i);
      assert Path(Chain(n), p);
    }
  }

  lemma {:induction false} OneAtATime(n: nat, p: seq<nat>)
    requires Path(Chain(n), p) && p[0] == 0
    ensures p[|p| - 1] < |p|
    decreases |p|
  {
    ChainFine(n);
    hide Chain;
    if |p| > 1 {
      var q := p[..|p| - 1];
      assert forall i :: 0 <= i < |q| - 1 ==> Linked(Chain(n), p[i], p[i + 1]);
      OneAtATime(n, q);
      assert Linked(Chain(n), p[|p| - 2], p[|p| - 1]);
    }
  }

  /** On n nodes in a row a TTL below n - 1 never brings the packet from one end to the other, on any run. */
  lemma {:induction false} ChainTooLong(fl: Flood, s: State, es: seq<Event>, n: nat, c: Copy)
    requires n > 0 && fl.net == Chain(n) && fl.origin == 0 && Reach(fl) < n - 1
    requires FreshId(fl, s, es) && c in AtEnd(fl, s, es).flight && Has(c, fl.packet.id)
    ensures Connected(fl.net) && AllRelay(fl.net) && c.to.node != n - 1
  {
    hide Chain, FreshId, AtEnd, Has;
    ChainFine(n);
    ChainConnected(n);
    NoFartherThanTtl(fl, s, es, c);
    var p :| Path(fl.net, p) && p[0] == 0 && p[|p| - 1] == c.to.node && |p| <= Reach(fl) + 1;
    OneAtATime(n, p);
  }
}
