/** What holds over whole runs within the memory of the caches: duplicates and reach. */
module FloodRuns {
  import opened Bits
  import opened SeenSpec
  import opened Pigeonhole
  import opened PacketCodec
  import opened Network
  import opened Flood
  import opened FloodInvariant

  // ---- runs ----

  // The origin takes up the packet at a moment when nobody knows its id.
  ghost predicate Launch(fl: Flood, s: State)
  {
    && Ok(fl.net, s) && fl.origin < |fl.net.ports| && Sendable(fl.packet)
    && fl.deadline == s.now + TTL_SEC
    && (forall c :: c in s.flight ==> !Has(c, fl.packet.id))
    && (forall n :: 0 <= n < |fl.net.ports| ==> !Seen(s.caches[n], fl.packet.id, s.now))
  }

  ghost function Begin(fl: Flood, s: State): Story
    requires Ok(fl.net, s) && fl.origin < |fl.net.ports|
  {
    Story(Step(fl.net, s, Originate(fl.origin, fl.packet)), [],
          Copies(fl.net, Outlets(fl.net, fl.origin, -1), 1, Wire(fl.packet)))
  }

  ghost function Tell(fl: Flood, st: Story, es: seq<Event>): (st': Story)
    requires Ok(fl.net, st.state)
    ensures Ok(fl.net, st'.state)
    decreases |es|
  {
    if es == [] then st else StepOk(fl.net, st.state, es[0]); Tell(fl, Next(fl, st, es[0]), es[1..])
  }

  ghost predicate CalmRun(fl: Flood, st: Story, es: seq<Event>)
    requires Ok(fl.net, st.state)
    decreases |es|
  {
    es == []
    || (Calm(fl, st.state, es[0]) && (StepOk(fl.net, st.state, es[0]); CalmRun(fl, Next(fl, st, es[0]), es[1..])))
  }

  lemma FirstStage(fl: Flood)
    ensures After(fl, 1) == fl.packet
  {
    TtlOf(fl, 1);
    SameByte(After(fl, 1).ttl, fl.packet.ttl);
  }

  lemma {:induction false} BeginInv(fl: Flood, s: State)
    requires Launch(fl, s)
    ensures Ok(fl.net, Begin(fl, s).state) && Inv(fl, Begin(fl, s))
  {
    var o, x, st := fl.origin, fl.packet.id, Begin(fl, s);
    StepOk(fl.net, s, Originate(o, fl.packet));
    FirstStage(fl);
    hide Seen, Added, Full, Decoded, Wire, Valid, After;
    forall n | 0 <= n < |fl.net.ports|
      ensures Reached(fl, [], n) ==> Seen(st.state.caches[n], x, fl.deadline)
      ensures Seen(st.state.caches[n], x, st.state.now) ==> Reached(fl, [], n)
    {
      AddKeeps(s.caches[o], x, x, s.now, fl.deadline);
    }
    var cs := st.carried;
    CopiesAre(fl.net, Outlets(fl.net, o, -1), 1, Wire(fl.packet));
    forall c | c in cs
      ensures GoodCopy(fl, [], c)
    {
    }
    CopiesOnce(fl.net, o, -1, 1, Wire(fl.packet));
    forall p | HasPort(fl.net, p) && p.node == o
      ensures Carries(cs, p, 1)
    {
      CopiesCarry(fl.net, o, -1, 1, Wire(fl.packet), p);
    }
  }

  lemma {:induction false} TellInv(fl: Flood, st: Story, es: seq<Event>)
    requires Inv(fl, st) && CalmRun(fl, st, es)
    ensures Inv(fl, Tell(fl, st, es))
    decreases |es|
  {
    if es != [] {
      hide Inv, Calm, Next;
      InvOk(fl, st);
      StepKeeps(fl, st, es[0]);
      TellInv(fl, Next(fl, st, es[0]), es[1..]);
    }
  }

  lemma InvOk(fl: Flood, st: Story)
    requires Inv(fl, st)
    ensures Ok(fl.net, st.state)
  {
  }

  // A moment of a calm run that started with the packet's origination in s.
  ghost predicate MomentFrom(fl: Flood, s: State, st: Story)
  {
    exists es :: Launched(fl, s, es) && st == Tell(fl, Begin(fl, s), es)
  }

  ghost predicate Moment(fl: Flood, st: Story) { exists s :: MomentFrom(fl, s, st) }

  ghost predicate Launched(fl: Flood, s: State, es: seq<Event>)
  {
    && Launch(fl, s) && Ok(fl.net, Begin(fl, s).state) && CalmRun(fl, Begin(fl, s), es)
  }

  lemma MomentInv(fl: Flood, st: Story)
    requires Moment(fl, st)
    ensures Inv(fl, st)
  {
    var s :| MomentFrom(fl, s, st);
    var es :| Launched(fl, s, es) && st == Tell(fl, Begin(fl, s), es);
    BeginInv(fl, s);
    TellInv(fl, Begin(fl, s), es);
  }

  // ---- at most once ----

  // A connection, seen from one of its ends.
  ghost function Links(net: Net): set<Port>
  {
    set n: nat, i: nat | n < |net.ports| && i < |net.ports[n]| :: Port(n, i)
  }

  predicate Lower(p: Port, q: Port)
  {
    p.node < q.node || (p.node == q.node && p.slot < q.slot)
  }

  // Every connection once, by its lower end.
  ghost function Edges(net: Net): set<Port>
  {
    set p | p in Links(net) && Lower(p, FarEnd(net, p))
  }

  ghost function Flip(net: Net, s: set<Port>): set<Port>
  {
    set p | p in s && HasPort(net, p) :: FarEnd(net, p)
  }

  lemma {:induction false} FlipSize(net: Net, s: set<Port>)
    requires WellFormed(net) && forall p :: p in s ==> HasPort(net, p)
    ensures |Flip(net, s)| == |s|
    decreases |s|
  {
    if s != {} {
      var p :| p in s;
      FlipSize(net, s - {p});
      forall q | q in Flip(net, s - {p})
        ensures q != FarEnd(net, p)
      {
        var r :| r in s - {p} && FarEnd(net, r) == q;
        assert FarEnd(net, FarEnd(net, r)) == r;
      }
      assert FarEnd(net, p) in Flip(net, s);
      assert Flip(net, s) == Flip(net, s - {p}) + {FarEnd(net, p)};
    }
  }

  lemma TwiceTheEdges(net: Net)
    requires WellFormed(net)
    ensures |Links(net)| == 2 * |Edges(net)|
  {
    var e := Edges(net);
    FlipSize(net, e);
    forall p | p in Links(net)
      ensures p in e || p in Flip(net, e)
    {
      var q := FarEnd(net, p);
      assert HasPort(net, p) && HasPort(net, q) && FarEnd(net, q) == p && q != p;
      assert q in Links(net);
      if !Lower(p, q) {
        assert q in e;
      }
    }
    forall p | p in Flip(net, e)
      ensures p in Links(net) && p !in e
    {
      var q :| q in e && HasPort(net, q) && FarEnd(net, q) == p;
      assert HasPort(net, p) && FarEnd(net, p) == q;
    }
    assert Links(net) == e + Flip(net, e);
  }

  // The connections used, each from the end it was used from, and for each accepting node the one back to
  // where it had the packet from.
  ghost function UsedAndSpared(st: Story): seq<Port>
  {
    seq(|st.carried|, i requires 0 <= i < |st.carried| => st.carried[i].from)
    + seq(|st.accepted|, k requires 0 <= k < |st.accepted| => st.accepted[k].at)
  }

  lemma SparedNotUsed(fl: Flood, st: Story, c: Copy, k: nat)
    requires Inv(fl, st) && c in st.carried && k < |st.accepted|
    ensures c.from != st.accepted[k].at
  {
    hide InTime, Memory, LinksOnce, AllPassedOn, Arrived, Decoded, Wire, After;
    assert GoodCopy(fl, st.accepted, c);
    assert ArrivalGood(fl, st, k);
  }

  lemma UsedDistinct(fl: Flood, st: Story)
    requires Inv(fl, st)
    ensures Distinct(UsedAndSpared(st))
  {
    hide Inv, Decoded, Wire, After;
    InvParts(fl, st);
    var u, n := UsedAndSpared(st), |st.carried|;
    forall i, j | 0 <= i < j < |u|
      ensures u[i] != u[j]
    {
      if i < n <= j {
        SparedNotUsed(fl, st, st.carried[i], j - n);
      }
    }
  }

  lemma InvParts(fl: Flood, st: Story)
    requires Inv(fl, st)
    ensures WellFormed(fl.net) && InTime(fl, st.state) && LinksOnce(st.carried)
    ensures forall j, k :: 0 <= j < k < |st.accepted| ==> st.accepted[j].at.node != st.accepted[k].at.node
    ensures forall k :: 0 <= k < |st.accepted| ==> ArrivalGood(fl, st, k)
    ensures forall c :: c in st.carried ==> GoodCopy(fl, st.accepted, c)
  {
  }

  lemma UsedAreLinks(fl: Flood, st: Story)
    requires Inv(fl, st)
    ensures Elements(UsedAndSpared(st)) <= Links(fl.net)
  {
    hide Inv, Decoded, Wire, After, InTime, Reach;
    InvParts(fl, st);
    forall l | l in UsedAndSpared(st)
      ensures l in Links(fl.net)
    {
      var i :| 0 <= i < |UsedAndSpared(st)| && UsedAndSpared(st)[i] == l;
      if i < |st.carried| {
        assert GoodCopy(fl, st.accepted, st.carried[i]);
      } else {
        assert ArrivalGood(fl, st, i - |st.carried|);
      }
    }
  }

  /** At every moment: nobody accepted the packet twice, the origin not at all, no connection has carried it
      twice in one direction, and the transmissions so far are one on each connection of the origin and, for
      every relay that accepted with TTL to spare, one on each of its connections but one. That is at most
      twice the connections less the nodes that accepted it. */
  lemma AtMostOnce(fl: Flood, st: Story)
    requires Moment(fl, st)
    ensures forall j, k :: 0 <= j < k < |st.accepted| ==> st.accepted[j].at.node != st.accepted[k].at.node
    ensures forall k :: 0 <= k < |st.accepted| ==> st.accepted[k].at.node != fl.origin
    ensures LinksOnce(st.carried)
    ensures fl.origin < |fl.net.ports| && |st.carried| == Transmissions(fl, st.accepted)
    ensures |st.carried| <= 2 * |Edges(fl.net)| - |st.accepted|
  {
    hide Inv, Moment, Links, Edges, UsedAndSpared, Elements, Distinct, Transmissions;
    MomentInv(fl, st);
    CountOf(fl, st);
    InvParts(fl, st);
    UsedDistinct(fl, st);
    UsedAreLinks(fl, st);
    DistinctSize(UsedAndSpared(st));
    SubsetSize(Elements(UsedAndSpared(st)), Links(fl.net));
    TwiceTheEdges(fl.net);
    UsedCount(st);
    forall k | 0 <= k < |st.accepted|
      ensures st.accepted[k].at.node != fl.origin
    {
      assert ArrivalGood(fl, st, k);
    }
  }

  lemma CountOf(fl: Flood, st: Story)
    requires Inv(fl, st)
    ensures fl.origin < |fl.net.ports| && |st.carried| == Transmissions(fl, st.accepted)
  {
  }

  lemma UsedCount(st: Story)
    ensures |UsedAndSpared(st)| == |st.carried| + |st.accepted|
  {
  }

  // ---- who is reached once nothing is in flight ----

  ghost predicate Settled(fl: Flood, st: Story)
  {
    forall c :: c in st.state.flight ==> !Has(c, fl.packet.id)
  }

  // v is the origin, or relays and accepted the packet with TTL to spare.
  ghost predicate Spreads(fl: Flood, acc: seq<Arrival>, v: nat)
  {
    v == fl.origin
    || (v < |fl.net.relays| && fl.net.relays[v]
        && exists k :: 0 <= k < |acc| && acc[k].at.node == v && acc[k].hops < StartTtl(fl))
  }

  lemma FromReached(fl: Flood, st: Story, k: nat)
    requires Inv(fl, st) && k < |st.accepted|
    ensures var a := st.accepted[k];
      && HasPort(fl.net, a.at) && a.from == FarEnd(fl.net, a.at)
      && Linked(fl.net, a.from.node, a.at.node) && Linked(fl.net, a.at.node, a.from.node)
      && (a.from.node == fl.origin ==> a.hops == 1)
      && (a.from.node != fl.origin ==>
            fl.net.relays[a.from.node]
            && exists j ::
                 0 <= j < |st.accepted| && st.accepted[j].at.node == a.from.node && st.accepted[j].hops + 1 == a.hops)
  {
    hide Inv, Decoded, Wire, After, Memory, AllPassedOn, Reach;
    InvParts(fl, st);
    var a := st.accepted[k];
    assert ArrivalGood(fl, st, k);
    var c :| c in st.carried && c.from == a.from && c.hops == a.hops;
    assert GoodCopy(fl, st.accepted, c);
  }

  lemma SpreadReaches(fl: Flood, st: Story, v: nat, u: nat)
    requires Inv(fl, st) && Settled(fl, st) && Linked(fl.net, v, u) && Spreads(fl, st.accepted, v)
    ensures Reached(fl, st.accepted, u)
  {
    hide Memory, Decoded, Wire, After, LinksOnce, Has, Valid, Seen, Transmissions;
    var p: Port :| HasPort(fl.net, p) && p.node == v && FarEnd(fl.net, p).node == u;
    if v == fl.origin {
      var c :| c in st.carried && c.from == p && c.hops == 1;
      CarriedHas(fl, st.accepted, c);
    } else {
      var k :| 0 <= k < |st.accepted| && st.accepted[k].at.node == v && st.accepted[k].hops < StartTtl(fl);
      if st.accepted[k].at == p {
        FromReached(fl, st, k);
      } else {
        assert PassedOn(fl, st.carried, st.accepted[k]);
        assert Carries(st.carried, p, st.accepted[k].hops + 1);
        var c :| c in st.carried && c.from == p && c.hops == st.accepted[k].hops + 1;
        CarriedHas(fl, st.accepted, c);
      }
    }
  }

  /** In any delivery order: once the packet is nowhere in flight, a node other than the origin has
      accepted it exactly when one of its neighbours is the origin or a relay that accepted it with
      TTL to spare. */
  lemma ReachedIff(fl: Flood, st: Story, u: nat)
    requires Moment(fl, st) && Settled(fl, st) && u < |fl.net.ports| && u != fl.origin
    ensures Reached(fl, st.accepted, u) <==> exists v: nat :: Linked(fl.net, u, v) && Spreads(fl, st.accepted, v)
  {
    hide Inv, Moment, Settled;
    MomentInv(fl, st);
    InvParts(fl, st);
    if Reached(fl, st.accepted, u) {
      var k :| 0 <= k < |st.accepted| && st.accepted[k].at.node == u;
      FromReached(fl, st, k);
      assert ArrivalGood(fl, st, k);
      FromSpreads(fl, st, k);
    }
    if exists v: nat :: Linked(fl.net, u, v) && Spreads(fl, st.accepted, v) {
      var v: nat :| Linked(fl.net, u, v) && Spreads(fl, st.accepted, v);
      LinkedBoth(fl.net, u, v);
      SpreadReaches(fl, st, v, u);
    }
  }

  lemma FromSpreads(fl: Flood, st: Story, k: nat)
    requires Inv(fl, st) && k < |st.accepted|
    ensures Spreads(fl, st.accepted, st.accepted[k].from.node)
  {
    hide Inv;
    InvParts(fl, st);
    FromReached(fl, st, k);
    var a := st.accepted[k];
    assert ArrivalGood(fl, st, k);
    if a.from.node != fl.origin {
      var j :| 0 <= j < |st.accepted| && st.accepted[j].at.node == a.from.node && st.accepted[j].hops + 1 == a.hops;
      assert ArrivalGood(fl, st, j);
    }
  }

  // ---- coverage ----

  ghost predicate Path(net: Net, p: seq<nat>)
  {
    && |p| > 0 && (forall i :: 0 <= i < |p| ==> p[i] < |net.ports|)
    && forall i :: 0 <= i < |p| - 1 ==> Linked(net, p[i], p[i + 1])
  }

  ghost predicate Linked(net: Net, a: nat, b: nat)
  {
    exists p :: HasPort(net, p) && p.node == a && FarEnd(net, p).node == b
  }

  lemma LinkedBoth(net: Net, a: nat, b: nat)
    requires WellFormed(net) && Linked(net, a, b)
    ensures Linked(net, b, a) && a < |net.ports| && b < |net.ports|
  {
    var p: Port :| HasPort(net, p) && p.node == a && FarEnd(net, p).node == b;
    assert HasPort(net, FarEnd(net, p));
  }

  ghost predicate Within(net: Net, a: nat, b: nat, k: nat)
  {
    exists p :: Path(net, p) && p[0] == a && p[|p| - 1] == b && |p| <= k + 1
  }

  ghost predicate Joined(net: Net, a: nat, b: nat)
  {
    exists p :: Path(net, p) && p[0] == a && p[|p| - 1] == b
  }

  ghost predicate Connected(net: Net)
  {
    forall a: nat, b: nat :: a < |net.ports| && b < |net.ports| ==> Joined(net, a, b)
  }

  ghost predicate AllRelay(net: Net)
  {
    forall n :: 0 <= n < |net.relays| ==> net.relays[n]
  }

  function Nodes(acc: seq<Arrival>): (s: seq<int>)
    ensures |s| == |acc| && forall i :: 0 <= i < |s| ==> s[i] == acc[i].at.node
  {
    seq(|acc|, i requires 0 <= i < |acc| => acc[i].at.node)
  }

  // With one node missing, everyone who accepted is fewer than N - 1 links away.
  lemma MissingOne(fl: Flood, st: Story, u: nat)
    requires Inv(fl, st) && u < |fl.net.ports| && !Reached(fl, st.accepted, u)
    ensures |st.accepted| + 2 <= |fl.net.ports|
    ensures forall k :: 0 <= k < |st.accepted| ==> st.accepted[k].hops <= |fl.net.ports| - 2
  {
    hide Inv, InTime, LinksOnce, GoodCopy, Carries, Distinct;
    InvParts(fl, st);
    var acc, n := st.accepted, |fl.net.ports|;
    var f := Nodes(acc) + [fl.origin as int, u as int];
    forall k | 0 <= k < |acc|
      ensures acc[k].at.node != u && acc[k].at.node != fl.origin && acc[k].at.node < n && acc[k].hops <= k + 1
    {
      assert ArrivalGood(fl, st, k);
    }
    OriginInNet(fl, st);
    hide ArrivalGood, Reached;
    assert Distinct(f) by { SomeDistinct(acc, fl.origin, u); }
    AtMost(f, 0, n);
  }

  lemma OriginInNet(fl: Flood, st: Story)
    requires Inv(fl, st)
    ensures fl.origin < |fl.net.ports|
  {
  }

  lemma SomeDistinct(acc: seq<Arrival>, a: nat, b: nat)
    requires forall j, k :: 0 <= j < k < |acc| ==> acc[j].at.node != acc[k].at.node
    requires a != b && forall k :: 0 <= k < |acc| ==> acc[k].at.node != a && acc[k].at.node != b
    ensures Distinct(Nodes(acc) + [a as int, b as int])
  {
  }

  lemma {:induction false} AlongPath(fl: Flood, st: Story, p: seq<nat>)
    requires Inv(fl, st) && Settled(fl, st) && Path(fl.net, p) && p[0] == fl.origin && AllRelay(fl.net)
    requires forall k :: 0 <= k < |st.accepted| ==> st.accepted[k].hops < StartTtl(fl)
    ensures Reached(fl, st.accepted, p[|p| - 1])
    decreases |p|
  {
    if |p| > 1 {
      var q := p[..|p| - 1];
      AlongPath(fl, st, q);
      var v, u := q[|q| - 1], p[|p| - 1];
      assert Linked(fl.net, p[|p| - 2], p[|p| - 1]);
      hide Inv, Settled;
      InvParts(fl, st);
      assert |fl.net.relays| == |fl.net.ports|;
      SpreadReaches(fl, st, v, u);
    }
  }

  /** On a connected net of N relaying nodes, a packet started with TTL at least N - 1 has been
      accepted by every node once no copy of it is in flight, whatever the order of delivery. */
  lemma Coverage(fl: Flood, st: Story, u: nat)
    requires Moment(fl, st) && Settled(fl, st)
    requires Connected(fl.net) && AllRelay(fl.net) && StartTtl(fl) >= |fl.net.ports| - 1
    requires u < |fl.net.ports|
    ensures Reached(fl, st.accepted, u)
  {
    hide Inv, Moment, Settled, Reached;
    MomentInv(fl, st);
    InvParts(fl, st);
    if !Reached(fl, st.accepted, u) {
      MissingOne(fl, st, u);
      assert Joined(fl.net, fl.origin, u);
      var p :| Path(fl.net, p) && p[0] == fl.origin && p[|p| - 1] == u;
      AlongPath(fl, st, p);
    }
  }

  // A node that accepted after h links is within h links.
  lemma {:induction false} HopsAreSteps(fl: Flood, st: Story, k: nat)
    requires Inv(fl, st) && k < |st.accepted|
    ensures Within(fl.net, fl.origin, st.accepted[k].at.node, st.accepted[k].hops)
    decreases st.accepted[k].hops
  {
    hide Inv;
    InvParts(fl, st);
    FromReached(fl, st, k);
    assert ArrivalGood(fl, st, k);
    var a := st.accepted[k];
    var p: seq<nat>;
    if a.from.node == fl.origin {
      p := [fl.origin];
    } else {
      var j :| 0 <= j < |st.accepted| && st.accepted[j].at.node == a.from.node && st.accepted[j].hops + 1 == a.hops;
      HopsAreSteps(fl, st, j);
      p :| Path(fl.net, p) && p[0] == fl.origin && p[|p| - 1] == a.from.node && |p| <= a.hops;
    }
    var q := p + [a.at.node];
    assert forall i :: 0 <= i < |p| - 1 ==> Linked(fl.net, q[i], q[i + 1]) by {
      assert forall i :: 0 <= i < |p| - 1 ==> Linked(fl.net, p[i], p[i + 1]);
    }
    assert Linked(fl.net, q[|p| - 1], q[|p|]);
    assert Path(fl.net, q);
  }

  lemma ShorterWithin(net: Net, a: nat, b: nat, k: nat, l: nat)
    requires Within(net, a, b, k) && k <= l
    ensures Within(net, a, b, l)
  {
    var p :| Path(net, p) && p[0] == a && p[|p| - 1] == b && |p| <= k + 1;
  }

  lemma ReachedIsNear(fl: Flood, st: Story, u: nat)
    requires Inv(fl, st) && u < |fl.net.ports| && Reached(fl, st.accepted, u)
    ensures Within(fl.net, fl.origin, u, Reach(fl))
  {
    hide Inv;
    InvParts(fl, st);
    if u == fl.origin {
      assert Path(fl.net, [u]);
    } else {
      var k :| 0 <= k < |st.accepted| && st.accepted[k].at.node == u;
      assert ArrivalGood(fl, st, k);
      HopsAreSteps(fl, st, k);
      ShorterWithin(fl.net, fl.origin, u, st.accepted[k].hops, Reach(fl));
    }
  }
}
