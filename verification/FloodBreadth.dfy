/** Breadth-first delivery reaches exactly the nodes within TTL links. */
module FloodBreadth {
  import opened SeenSpec
  import opened PacketCodec
  import opened Network
  import opened Flood
  import opened FloodInvariant
  import opened FloodRuns

  // Of the packet's copies in flight, one that has crossed the fewest links is delivered.
  ghost predicate NearestFirst(fl: Flood, s: State, e: Event)
    requires Ok(fl.net, s)
  {
    e.Deliver? && Enabled(fl.net, s, e) && Has(s.flight[e.index], fl.packet.id) ==>
      forall c :: c in s.flight && Has(c, fl.packet.id) ==> s.flight[e.index].hops <= c.hops
  }

  ghost predicate BreadthFirst(fl: Flood, st: Story, es: seq<Event>)
    requires Ok(fl.net, st.state)
    decreases |es|
  {
    es == []
    || (NearestFirst(fl, st.state, es[0])
        && (StepOk(fl.net, st.state, es[0]); BreadthFirst(fl, Next(fl, st, es[0]), es[1..])))
  }

  // Nobody accepted from farther away than anything still in flight has come, and a copy that was
  // delivered found its node reached by no longer a way.
  ghost predicate Layered(fl: Flood, st: Story)
  {
    && (forall k, c :: 0 <= k < |st.accepted| && c in st.state.flight && Has(c, fl.packet.id) ==>
      st.accepted[k].hops <= c.hops)
    && (forall c :: c in st.carried ==> c in st.state.flight || ReachedBy(fl, st.accepted, c.to.node, c.hops))
  }

  lemma QuietLayered(fl: Flood, st: Story, st': Story)
    requires Inv(fl, st) && Layered(fl, st) && Quiet(fl, st, st')
    ensures Layered(fl, st')
  {
    hide Seen, Decoded, Wire, After, Valid, WellFormed, LinksOnce, AllPassedOn, ArrivalsGood, Arrived;
    forall c | c in st'.carried
      ensures c in st'.state.flight || ReachedBy(fl, st'.accepted, c.to.node, c.hops)
    {
      assert GoodCopy(fl, st.accepted, c);
      if c in st.state.flight && c !in st'.state.flight {
        CarriedHas(fl, st.accepted, c);
        assert Reached(fl, st.accepted, c.to.node);
      }
    }
  }

  lemma ReachedByGrows(fl: Flood, acc: seq<Arrival>, a: Arrival, n: nat, h: int)
    ensures ReachedBy(fl, acc, n, h) || (n == a.at.node && a.hops <= h) ==> ReachedBy(fl, acc + [a], n, h)
  {
    var acc' := acc + [a];
    assert acc'[|acc|] == a;
    if ReachedBy(fl, acc, n, h) && !(n == fl.origin && h >= 0) {
      var k :| 0 <= k < |acc| && acc[k].at.node == n && acc[k].hops <= h;
      assert acc'[k] == acc[k];
    }
  }

  lemma AcceptNearer(fl: Flood, st: Story, st': Story, c: Copy)
    requires Layered(fl, st) && Accept(fl, st, st', c) && HasPort(fl.net, c.to)
    requires forall d :: d in st.state.flight && Has(d, fl.packet.id) ==> c.hops <= d.hops
    ensures forall k, d :: 0 <= k < |st'.accepted| && d in st'.state.flight && Has(d, fl.packet.id) ==>
      st'.accepted[k].hops <= d.hops
  {
    OnwardFrom(fl.net, st.state.caches[c.to.node], c, st.state.now);
    hide Seen, Decoded, Valid, WellFormed, Onward;
    forall k, d | 0 <= k < |st'.accepted| && d in st'.state.flight && Has(d, fl.packet.id)
      ensures st'.accepted[k].hops <= d.hops
    {
      if k < |st.accepted| {
        assert st'.accepted[k] == st.accepted[k];
      }
    }
  }

  lemma AcceptLayered(fl: Flood, st: Story, st': Story, c: Copy)
    requires Inv(fl, st) && Layered(fl, st) && Accept(fl, st, st', c)
    requires forall d :: d in st.state.flight && Has(d, fl.packet.id) ==> c.hops <= d.hops
    ensures Layered(fl, st')
  {
    NewNode(fl, st, st', c);
    OnwardFrom(fl.net, st.state.caches[c.to.node], c, st.state.now);
    hide Seen, Decoded, Wire, After, Valid, WellFormed, Onward, LinksOnce, AllPassedOn, ArrivalsGood, Arrived, Memory;
    var acc, acc' := st.accepted, st'.accepted;
    AcceptNearer(fl, st, st', c);
    ReachedByGrows(fl, acc, Arrival(c.to, c.from, c.hops), c.to.node, c.hops);
    hide ReachedBy, Reached, GoodCopy;
    forall d | d in st'.carried
      ensures d in st'.state.flight || ReachedBy(fl, acc', d.to.node, d.hops)
    {
      if d in st.carried && d !in st'.state.flight {
        if d in st.state.flight {
          CarriedHas(fl, st.accepted, d);
        } else {
          ReachedByGrows(fl, acc, Arrival(c.to, c.from, c.hops), d.to.node, d.hops);
        }
      }
    }
  }

  lemma {:induction false} TellLayered(fl: Flood, st: Story, es: seq<Event>)
    requires Inv(fl, st) && Layered(fl, st) && CalmRun(fl, st, es) && BreadthFirst(fl, st, es)
    ensures Layered(fl, Tell(fl, st, es))
    decreases |es|
  {
    if es != [] {
      hide Inv, Layered, Calm, Next, Quiet, Accept;
      var st' := Next(fl, st, es[0]);
      InvOk(fl, st);
      InvParts(fl, st);
      EveryStep(fl, st, es[0]);
      StepKeeps(fl, st, es[0]);
      if Quiet(fl, st, st') {
        QuietLayered(fl, st, st');
      } else {
        AcceptLayered(fl, st, st', st.state.flight[es[0].index]);
      }
      TellLayered(fl, st', es[1..]);
    }
  }

  lemma {:induction false} BeginLayered(fl: Flood, s: State)
    requires Launch(fl, s)
    ensures Layered(fl, Begin(fl, s))
  {
  }

  // A moment of a calm, breadth-first run.
  ghost predicate BreadthMoment(fl: Flood, st: Story)
  {
    exists s, es :: Launched(fl, s, es) && BreadthFirst(fl, Begin(fl, s), es) && st == Tell(fl, Begin(fl, s), es)
  }

  lemma BreadthInv(fl: Flood, st: Story)
    requires BreadthMoment(fl, st)
    ensures Inv(fl, st) && Layered(fl, st)
  {
    hide Inv, Layered;
    var s, es :| Launched(fl, s, es) && BreadthFirst(fl, Begin(fl, s), es) && st == Tell(fl, Begin(fl, s), es);
    BeginInv(fl, s);
    BeginLayered(fl, s);
    TellInv(fl, Begin(fl, s), es);
    TellLayered(fl, Begin(fl, s), es);
  }

  lemma {:induction false} AlongLayers(fl: Flood, st: Story, p: seq<nat>)
    requires Inv(fl, st) && Layered(fl, st) && Settled(fl, st) && AllRelay(fl.net)
    requires Path(fl.net, p) && p[0] == fl.origin && |p| <= Reach(fl) + 1
    ensures ReachedBy(fl, st.accepted, p[|p| - 1], |p| - 1)
    decreases |p|
  {
    if |p| > 1 {
      var q := p[..|p| - 1];
      AlongLayers(fl, st, q);
      assert Linked(fl.net, p[|p| - 2], p[|p| - 1]);
      NextLayer(fl, st, p[|p| - 2], p[|p| - 1], |p| - 2);
    }
  }

  lemma NextLayer(fl: Flood, st: Story, v: nat, u: nat, h: nat)
    requires Inv(fl, st) && Layered(fl, st) && Settled(fl, st) && AllRelay(fl.net)
    requires Linked(fl.net, v, u) && ReachedBy(fl, st.accepted, v, h) && h < Reach(fl)
    ensures ReachedBy(fl, st.accepted, u, h + 1)
  {
    hide Memory, Decoded, Wire, After, LinksOnce, Has, Valid, Seen, Arrived, Transmissions, InTime, Ok, FromBefore,
      SentBy, WellFormed;
    InvParts(fl, st);
    var p: Port :| HasPort(fl.net, p) && p.node == v && FarEnd(fl.net, p).node == u;
    if v == fl.origin {
      var c :| c in st.carried && c.from == p && c.hops == 1;
      CarriedHas(fl, st.accepted, c);
    } else {
      var k :| 0 <= k < |st.accepted| && st.accepted[k].at.node == v && st.accepted[k].hops <= h;
      assert ArrivalGood(fl, st, k);
      FromReached(fl, st, k);
      if st.accepted[k].at != p {
        assert PassedOn(fl, st.carried, st.accepted[k]);
        assert Carries(st.carried, p, st.accepted[k].hops + 1);
        var c :| c in st.carried && c.from == p && c.hops == st.accepted[k].hops + 1;
        CarriedHas(fl, st.accepted, c);
      }
    }
  }

  /** Among relaying nodes and breadth-first, once no copy is in flight exactly the nodes within as many
      links as the TTL says (one at least) have the packet. */
  lemma ExactReach(fl: Flood, st: Story, u: nat)
    requires BreadthMoment(fl, st) && Settled(fl, st) && AllRelay(fl.net) && u < |fl.net.ports|
    ensures Reached(fl, st.accepted, u) <==> Within(fl.net, fl.origin, u, Reach(fl))
  {
    hide Inv, Layered, BreadthMoment, Settled;
    BreadthInv(fl, st);
    InvParts(fl, st);
    if Reached(fl, st.accepted, u) {
      ReachedIsNear(fl, st, u);
    }
    if Within(fl.net, fl.origin, u, Reach(fl)) {
      var p :| Path(fl.net, p) && p[0] == fl.origin && p[|p| - 1] == u && |p| <= Reach(fl) + 1;
      AlongLayers(fl, st, p);
    }
  }
}
