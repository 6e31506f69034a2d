/** The invariant of one packet's flood. */
module FloodInvariant {
  import opened Bits
  import opened Options
  import opened SeenSpec
  import opened PacketCodec
  import opened Network
  import opened Flood

  // The origin, or a node that accepted the packet.
  ghost predicate Reached(fl: Flood, acc: seq<Arrival>, n: nat)
  {
    n == fl.origin || exists k :: 0 <= k < |acc| && acc[k].at.node == n
  }

  // As above, after no more than h links.
  ghost predicate ReachedBy(fl: Flood, acc: seq<Arrival>, n: nat, h: int)
  {
    (n == fl.origin && h >= 0) || exists k :: 0 <= k < |acc| && acc[k].at.node == n && acc[k].hops <= h
  }

  function StartTtl(fl: Flood): nat { fl.packet.ttl as int }

  // How far a copy can get: a packet started with TTL 0 still crosses one link.
  function Farthest(ttl: nat): nat { if ttl == 0 then 1 else ttl }

  function Reach(fl: Flood): nat { Farthest(StartTtl(fl)) }

  // The packet as it stands after h links.
  function After(fl: Flood, h: nat): Packet
    requires 1 <= h <= Reach(fl)
  {
    fl.packet.(ttl := (if StartTtl(fl) == 0 then 0 else StartTtl(fl) - (h - 1)) as byte)
  }

  // Some accepting node sent this copy on, and not back over the connection by which it came.
  ghost predicate SentBy(acc: seq<Arrival>, c: Copy)
  {
    exists k :: 0 <= k < |acc| && acc[k].at.node == c.from.node && acc[k].hops + 1 == c.hops && acc[k].at != c.from
  }

  ghost predicate GoodCopy(fl: Flood, acc: seq<Arrival>, c: Copy)
  {
    && OnLink(fl.net, c) && 1 <= c.hops <= Reach(fl) && c.hops <= |acc| + 1 && c.wire == Wire(After(fl, c.hops))
    && if c.from.node == fl.origin then c.hops == 1
       else SentBy(acc, c) && c.from.node < |fl.net.relays| && fl.net.relays[c.from.node]
  }

  ghost predicate Carries(cs: seq<Copy>, p: Port, h: int)
  {
    exists c :: c in cs && c.from == p && c.hops == h
  }

  ghost predicate Memory(fl: Flood, st: Story)
    requires |st.state.caches| == |fl.net.ports|
  {
    forall n :: 0 <= n < |fl.net.ports| ==>
      && (Reached(fl, st.accepted, n) ==> Seen(st.state.caches[n], fl.packet.id, fl.deadline))
      && (Seen(st.state.caches[n], fl.packet.id, st.state.now) ==> Reached(fl, st.accepted, n))
  }

  ghost predicate CopiesGood(fl: Flood, st: Story)
  {
    && (forall c :: c in st.carried ==> GoodCopy(fl, st.accepted, c))
    && (forall c :: c in st.state.flight && Has(c, fl.packet.id) ==> c in st.carried)
  }

  ghost predicate ArrivalGood(fl: Flood, st: Story, k: nat)
    requires k < |st.accepted|
  {
    var a := st.accepted[k];
    && a.at.node != fl.origin && HasPort(fl.net, a.at) && HasPort(fl.net, a.from) && FarEnd(fl.net, a.from) == a.at
    && FarEnd(fl.net, a.at) == a.from && 1 <= a.hops <= k + 1 && a.hops <= Reach(fl)
    && Carries(st.carried, a.from, a.hops) && FromBefore(fl, st.accepted, k)
  }

  // It came from the origin, or from a node that had accepted before, one link nearer.
  ghost predicate FromBefore(fl: Flood, acc: seq<Arrival>, k: nat)
    requires k < |acc|
  {
    if acc[k].from.node == fl.origin then acc[k].hops == 1
    else exists j :: 0 <= j < k && acc[j].at.node == acc[k].from.node && acc[j].hops + 1 == acc[k].hops
  }

  ghost predicate ArrivalsGood(fl: Flood, st: Story)
  {
    && (forall k :: 0 <= k < |st.accepted| ==> ArrivalGood(fl, st, k))
    && (forall j, k :: 0 <= j < k < |st.accepted| ==> st.accepted[j].at.node != st.accepted[k].at.node)
  }

  ghost predicate LinksOnce(cs: seq<Copy>)
  {
    forall i, j :: 0 <= i < j < |cs| ==> cs[i].from != cs[j].from
  }

  ghost predicate PassedOn(fl: Flood, cs: seq<Copy>, a: Arrival)
  {
    a.at.node < |fl.net.relays| && fl.net.relays[a.at.node] && a.hops < StartTtl(fl) ==>
      forall p :: HasPort(fl.net, p) && p.node == a.at.node && p != a.at ==> Carries(cs, p, a.hops + 1)
  }

  ghost predicate AllPassedOn(fl: Flood, st: Story)
  {
    && (forall p :: HasPort(fl.net, p) && p.node == fl.origin ==> Carries(st.carried, p, 1))
    && forall k :: 0 <= k < |st.accepted| ==> PassedOn(fl, st.carried, st.accepted[k])
  }

  // How many copies a node sends on that accepts the packet.
  function SentOn(fl: Flood, a: Arrival): nat
  {
    if HasPort(fl.net, a.at) && a.at.node < |fl.net.relays| && fl.net.relays[a.at.node] && a.hops < StartTtl(fl)
    then |fl.net.ports[a.at.node]| - 1
    else 0
  }

  // One transmission on each connection of the origin, and what every node that accepted sent on.
  function Transmissions(fl: Flood, acc: seq<Arrival>): nat
    requires fl.origin < |fl.net.ports|
  {
    if acc == [] then |fl.net.ports[fl.origin]|
    else Transmissions(fl, acc[..|acc| - 1]) + SentOn(fl, acc[|acc| - 1])
  }

  ghost predicate Arrived(fl: Flood, st: Story)
  {
    forall c :: c in st.carried ==> c in st.state.flight || Reached(fl, st.accepted, c.to.node)
  }

  ghost predicate Inv(fl: Flood, st: Story)
  {
    && InTime(fl, st.state) && Memory(fl, st) && CopiesGood(fl, st) && ArrivalsGood(fl, st)
    && LinksOnce(st.carried) && AllPassedOn(fl, st) && Arrived(fl, st)
    && |st.carried| == Transmissions(fl, st.accepted)
  }

  // ---- quiet steps ----

  lemma QuietKeeps(fl: Flood, st: Story, st': Story)
    requires Inv(fl, st) && Quiet(fl, st, st')
    ensures Inv(fl, st')
  {
    hide Seen, Decoded, Valid, WellFormed;
    QuietMemory(fl, st, st');
    assert forall k :: 0 <= k < |st.accepted| && ArrivalGood(fl, st, k) ==> ArrivalGood(fl, st', k);
    forall c | c in st'.carried
      ensures c in st'.state.flight || Reached(fl, st'.accepted, c.to.node)
    {
      assert GoodCopy(fl, st.accepted, c);
      if c in st.state.flight && c !in st'.state.flight {
        CarriedHas(fl, st.accepted, c);
        assert Seen(st.state.caches[c.to.node], fl.packet.id, st.state.now);
      }
    }
  }

  lemma QuietMemory(fl: Flood, st: Story, st': Story)
    requires InTime(fl, st.state) && Memory(fl, st) && Quiet(fl, st, st')
    ensures Memory(fl, st')
  {
    hide Seen, Valid, WellFormed;
    forall n | 0 <= n < |fl.net.ports|
      ensures Reached(fl, st'.accepted, n) ==> Seen(st'.state.caches[n], fl.packet.id, fl.deadline)
      ensures Seen(st'.state.caches[n], fl.packet.id, st'.state.now) ==> Reached(fl, st'.accepted, n)
    {
      assert Steady(fl, st.state.caches[n], st'.state.caches[n], st.state.now, st'.state.now);
    }
  }

  lemma CarriedHas(fl: Flood, acc: seq<Arrival>, c: Copy)
    requires Sendable(fl.packet) && GoodCopy(fl, acc, c)
    ensures Has(c, fl.packet.id)
  {
    DecodeWire(After(fl, c.hops));
  }

  // ---- acceptance ----

  // The sender of a copy that a new node accepts is one of those reached.
  lemma NewNode(fl: Flood, st: Story, st': Story, c: Copy)
    requires Inv(fl, st) && Accept(fl, st, st', c)
    ensures c in st.carried && GoodCopy(fl, st.accepted, c)
    ensures !Reached(fl, st.accepted, c.to.node) && Reached(fl, st.accepted, c.from.node)
    ensures HasPort(fl.net, c.from) && HasPort(fl.net, c.to)
    ensures FarEnd(fl.net, c.from) == c.to && FarEnd(fl.net, c.to) == c.from
  {
    hide Decoded, Valid, WellFormed;
    assert c in st.carried;
    assert GoodCopy(fl, st.accepted, c);
    LinkBack(fl.net, c);
    if Reached(fl, st.accepted, c.to.node) {
      TimeForgets(st.state.caches[c.to.node], fl.packet.id, st.state.now, fl.deadline);
    }
  }

  lemma {:induction false} ReachedGrows(fl: Flood, acc: seq<Arrival>, a: Arrival, n: nat)
    ensures Reached(fl, acc + [a], n) <==> Reached(fl, acc, n) || n == a.at.node
  {
    var acc' := acc + [a];
    assert acc'[|acc|] == a;
    if Reached(fl, acc, n) && n != fl.origin {
      var k :| 0 <= k < |acc| && acc[k].at.node == n;
      assert acc'[k].at.node == n;
    }
  }

  lemma AcceptMemory(fl: Flood, st: Story, st': Story, c: Copy)
    requires Inv(fl, st) && Accept(fl, st, st', c)
    ensures Memory(fl, st')
  {
    NewNode(fl, st, st', c);
    hide Seen, Valid, WellFormed, Onward, Decoded, Reached, ArrivalsGood, AllPassedOn, CopiesGood, Arrived, LinksOnce,
      GoodCopy;
    forall n | 0 <= n < |fl.net.ports|
      ensures Reached(fl, st'.accepted, n) ==> Seen(st'.state.caches[n], fl.packet.id, fl.deadline)
      ensures Seen(st'.state.caches[n], fl.packet.id, st'.state.now) ==> Reached(fl, st'.accepted, n)
    {
      ReachedGrows(fl, st.accepted, Arrival(c.to, c.from, c.hops), n);
      if n != c.to.node {
        assert Steady(fl, st.state.caches[n], st'.state.caches[n], st.state.now, st'.state.now);
      }
    }
  }

  lemma ByteAbove(b: byte)
    ensures b > 1 <==> b as int > 1
  {
  }

  lemma TtlOf(fl: Flood, h: nat)
    requires 1 <= h <= Reach(fl)
    ensures After(fl, h).ttl as int == if StartTtl(fl) == 0 then 0 else StartTtl(fl) - (h - 1)
    ensures After(fl, h).ttl > 1 <==> h < StartTtl(fl)
  {
    ByteOfInt(if StartTtl(fl) == 0 then 0 else StartTtl(fl) - (h - 1));
    ByteAbove(After(fl, h).ttl);
  }

  // Relaying takes the packet from one stage to the next.
  lemma NextStage(fl: Flood, h: nat)
    requires 1 <= h < StartTtl(fl)
    ensures Relayed(After(fl, h)) == After(fl, h + 1)
  {
    TtlOf(fl, h);
    TtlOf(fl, h + 1);
    OneHopLess(After(fl, h));
    SameByte(Relayed(After(fl, h)).ttl, After(fl, h + 1).ttl);
  }

  // What an accepting node sends on, in terms of the packet.
  lemma OnwardIs(fl: Flood, cache: Cache, c: Copy, now: int)
    requires WellFormed(fl.net) && HasPort(fl.net, c.to) && Sendable(fl.packet)
    requires 1 <= c.hops <= Reach(fl) && c.wire == Wire(After(fl, c.hops)) && !Seen(cache, fl.packet.id, now)
    ensures var on := Onward(fl.net, cache, c, now);
      if fl.net.relays[c.to.node] && c.hops < StartTtl(fl)
      then on == Copies(fl.net, Outlets(fl.net, c.to.node, c.to.slot), c.hops + 1, Wire(After(fl, c.hops + 1)))
      else on == []
  {
    hide *;
    StageDecodes(fl, c.hops);
    OnwardOf(fl.net, cache, c, now, After(fl, c.hops));
    if c.hops < StartTtl(fl) {
      NextStage(fl, c.hops);
    }
  }

  lemma StageDecodes(fl: Flood, h: nat)
    requires 1 <= h <= Reach(fl) && Sendable(fl.packet)
    ensures Decoded(Wire(After(fl, h))) == Some(After(fl, h)) && After(fl, h).id == fl.packet.id
    ensures After(fl, h).ttl > 1 <==> h < StartTtl(fl)
  {
    hide Decoded, Wire;
    DecodeWire(After(fl, h));
    TtlOf(fl, h);
  }

  // What a node sends on that gets a frame with an unseen packet q in it.
  lemma OnwardOf(net: Net, cache: Cache, c: Copy, now: int, q: Packet)
    requires WellFormed(net) && HasPort(net, c.to) && Decoded(c.wire) == Some(q) && !Seen(cache, q.id, now)
    ensures Onward(net, cache, c, now) ==
      if net.relays[c.to.node] && q.ttl > 1
      then Copies(net, Outlets(net, c.to.node, c.to.slot), c.hops + 1, Wire(Relayed(q))) else []
  {
    hide Decoded, Wire, Relayed, Seen, Outlets, Copies;
  }

  lemma GoodCopyMore(fl: Flood, acc: seq<Arrival>, a: Arrival, d: Copy)
    requires GoodCopy(fl, acc, d)
    ensures GoodCopy(fl, acc + [a], d)
  {
    if d.from.node != fl.origin {
      var k :| 0 <= k < |acc| && acc[k].at.node == d.from.node && acc[k].hops + 1 == d.hops && acc[k].at != d.from;
      assert (acc + [a])[k] == acc[k];
    }
  }

  lemma AcceptCopies(fl: Flood, st: Story, st': Story, c: Copy)
    requires Inv(fl, st) && Accept(fl, st, st', c)
    ensures CopiesGood(fl, st')
  {
    NewNode(fl, st, st', c);
    var n := c.to.node;
    OnwardIs(fl, st.state.caches[n], c, st.state.now);
    OnwardFrom(fl.net, st.state.caches[n], c, st.state.now);
    hide Seen, Valid, Onward, Decoded, Wire, ArrivalsGood, AllPassedOn, Arrived, LinksOnce, Memory, After,
      Transmissions;
    var acc' := st'.accepted;
    assert acc'[|st.accepted|] == Arrival(c.to, c.from, c.hops);
    forall d | d in st'.carried
      ensures GoodCopy(fl, acc', d)
    {
      if d in st.carried {
        GoodCopyMore(fl, st.accepted, Arrival(c.to, c.from, c.hops), d);
      } else {
        assert d in Onward(fl.net, st.state.caches[n], c, st.state.now);
        assert fl.net.relays[n];
        assert SentBy(acc', d);
      }
    }
  }

  lemma GoodHops(fl: Flood, acc: seq<Arrival>, c: Copy)
    requires GoodCopy(fl, acc, c)
    ensures 1 <= c.hops <= Reach(fl) && c.hops <= |acc| + 1
  {
  }

  lemma FromBeforeMore(fl: Flood, acc: seq<Arrival>, acc': seq<Arrival>, k: nat)
    requires k < |acc| && acc <= acc' && FromBefore(fl, acc, k)
    ensures FromBefore(fl, acc', k)
  {
    if acc[k].from.node != fl.origin {
      var j :| 0 <= j < k && acc[j].at.node == acc[k].from.node && acc[j].hops + 1 == acc[k].hops;
      assert acc'[j] == acc[j];
    }
  }

  lemma SentIsBefore(fl: Flood, acc: seq<Arrival>, c: Copy)
    requires GoodCopy(fl, acc, c)
    ensures FromBefore(fl, acc + [Arrival(c.to, c.from, c.hops)], |acc|)
  {
    if c.from.node != fl.origin {
      var j :| 0 <= j < |acc| && acc[j].at.node == c.from.node && acc[j].hops + 1 == c.hops && acc[j].at != c.from;
      assert (acc + [Arrival(c.to, c.from, c.hops)])[j] == acc[j];
    }
  }

  lemma AcceptArrivals(fl: Flood, st: Story, st': Story, c: Copy)
    requires Inv(fl, st) && Accept(fl, st, st', c)
    ensures ArrivalsGood(fl, st')
  {
    hide Seen, Valid, WellFormed, Onward, Decoded, Wire, AllPassedOn, Arrived, LinksOnce, Memory, After, GoodCopy;
    NewNode(fl, st, st', c);
    GoodHops(fl, st.accepted, c);
    var acc, acc' := st.accepted, st'.accepted;
    forall k | 0 <= k < |acc'|
      ensures ArrivalGood(fl, st', k)
    {
      if k < |acc| {
        assert acc'[k] == acc[k];
        assert ArrivalGood(fl, st, k);
        var a := acc[k];
        var d :| d in st.carried && d.from == a.from && d.hops == a.hops;
        assert d in st'.carried;
        FromBeforeMore(fl, acc, acc', k);
      } else {
        assert acc'[k] == Arrival(c.to, c.from, c.hops);
        assert c in st'.carried;
        assert Carries(st'.carried, c.from, c.hops);
        SentIsBefore(fl, acc, c);
      }
    }
    forall j, k | 0 <= j < k < |acc'|
      ensures acc'[j].at.node != acc'[k].at.node
    {
      assert acc'[j] == acc[j];
      if k == |acc| {
        assert acc'[k].at.node == c.to.node;
      }
    }
  }

  lemma {:induction false} SlotsDistinct(n: nat, k: nat, but: int)
    ensures forall i, j :: 0 <= i < j < |Slots(n, k, but)| ==> Slots(n, k, but)[i] != Slots(n, k, but)[j]
  {
    if k > 0 {
      SlotsDistinct(n, k - 1, but);
      var ps := Slots(n, k - 1, but);
      assert forall i :: 0 <= i < |ps| ==> ps[i] in ps;
    }
  }

  lemma CopiesOnce(net: Net, n: nat, but: int, h: nat, wire: seq<byte>)
    requires n < |net.ports|
    ensures LinksOnce(Copies(net, Outlets(net, n, but), h, wire))
  {
    SlotsDistinct(n, |net.ports[n]|, but);
    hide Slots;
  }

  lemma LinksOnceMore(cs: seq<Copy>, more: seq<Copy>, n: nat)
    requires LinksOnce(cs) && LinksOnce(more)
    requires forall c :: c in cs ==> c.from.node != n
    requires forall c :: c in more ==> c.from.node == n
    ensures LinksOnce(cs + more)
  {
    var all := cs + more;
    forall i, j | 0 <= i < j < |all|
      ensures all[i].from != all[j].from
    {
      if i < |cs| <= j {
        assert cs[i] in cs && more[j - |cs|] in more;
      }
    }
  }

  lemma AcceptLinks(fl: Flood, st: Story, st': Story, c: Copy)
    requires Inv(fl, st) && Accept(fl, st, st', c)
    ensures LinksOnce(st'.carried)
  {
    hide Seen, Valid, Onward, Decoded, Wire, ArrivalsGood, AllPassedOn, Arrived, Memory, After, Outlets, LinksOnce,
      Copies;
    NewNode(fl, st, st', c);
    OnwardIs(fl, st.state.caches[c.to.node], c, st.state.now);
    OnwardFrom(fl.net, st.state.caches[c.to.node], c, st.state.now);
    var on := Onward(fl.net, st.state.caches[c.to.node], c, st.state.now);
    if on == [] {
      assert st.carried + on == st.carried;
    } else {
      CopiesOnce(fl.net, c.to.node, c.to.slot, c.hops + 1, Wire(After(fl, c.hops + 1)));
      forall d | d in st.carried
        ensures d.from.node != c.to.node
      {
        assert GoodCopy(fl, st.accepted, d);
      }
      LinksOnceMore(st.carried, on, c.to.node);
    }
  }

  lemma CarriesMore(cs: seq<Copy>, more: seq<Copy>, p: Port, h: int)
    requires Carries(cs, p, h) || Carries(more, p, h)
    ensures Carries(cs + more, p, h)
  {
    var c :| (c in cs || c in more) && c.from == p && c.hops == h;
    assert c in cs + more;
  }

  lemma CopiesCarry(net: Net, n: nat, but: int, h: nat, wire: seq<byte>, p: Port)
    requires WellFormed(net) && HasPort(net, p) && p.node == n && p.slot != but
    ensures Carries(Copies(net, Outlets(net, n, but), h, wire), p, h)
  {
    CopiesAre(net, Outlets(net, n, but), h, wire);
    assert p in Outlets(net, n, but);
  }

  lemma PassedOnMore(fl: Flood, cs: seq<Copy>, more: seq<Copy>, a: Arrival)
    requires PassedOn(fl, cs, a)
    ensures PassedOn(fl, cs + more, a)
  {
    if a.at.node < |fl.net.relays| && fl.net.relays[a.at.node] && a.hops < StartTtl(fl) {
      forall p | HasPort(fl.net, p) && p.node == a.at.node && p != a.at
        ensures Carries(cs + more, p, a.hops + 1)
      {
        CarriesMore(cs, more, p, a.hops + 1);
      }
    }
  }

  lemma AcceptPassedOn(fl: Flood, st: Story, st': Story, c: Copy)
    requires Inv(fl, st) && Accept(fl, st, st', c)
    ensures AllPassedOn(fl, st')
  {
    NewNode(fl, st, st', c);
    OnwardIs(fl, st.state.caches[c.to.node], c, st.state.now);
    var on := Onward(fl.net, st.state.caches[c.to.node], c, st.state.now);
    hide Seen, Valid, Onward, Decoded, Wire, Arrived, Memory, After, Outlets, LinksOnce, CopiesGood, Carries, Copies;
    forall p | HasPort(fl.net, p) && p.node == fl.origin
      ensures Carries(st'.carried, p, 1)
    {
      CarriesMore(st.carried, on, p, 1);
    }
    forall k | 0 <= k < |st'.accepted|
      ensures PassedOn(fl, st'.carried, st'.accepted[k])
    {
      if k < |st.accepted| {
        assert st'.accepted[k] == st.accepted[k];
        PassedOnMore(fl, st.carried, on, st.accepted[k]);
      } else {
        NewPassedOn(fl, st.carried, on, c);
      }
    }
  }

  lemma NewPassedOn(fl: Flood, cs: seq<Copy>, on: seq<Copy>, c: Copy)
    requires WellFormed(fl.net) && HasPort(fl.net, c.to) && c.hops >= 1
    requires fl.net.relays[c.to.node] && c.hops < StartTtl(fl)
      ==> on == Copies(fl.net, Outlets(fl.net, c.to.node, c.to.slot), c.hops + 1, Wire(After(fl, c.hops + 1)))
    ensures PassedOn(fl, cs + on, Arrival(c.to, c.from, c.hops))
  {
    hide Copies, Outlets, Wire, After, Carries;
    if fl.net.relays[c.to.node] && c.hops < StartTtl(fl) {
      forall p | HasPort(fl.net, p) && p.node == c.to.node && p != c.to
        ensures Carries(cs + on, p, c.hops + 1)
      {
        CopiesCarry(fl.net, c.to.node, c.to.slot, c.hops + 1, Wire(After(fl, c.hops + 1)), p);
        CarriesMore(cs, on, p, c.hops + 1);
      }
    }
  }

  lemma AcceptCounted(fl: Flood, st: Story, st': Story, c: Copy)
    requires Inv(fl, st) && Accept(fl, st, st', c)
    ensures |st'.carried| == Transmissions(fl, st'.accepted)
  {
    NewNode(fl, st, st', c);
    OnwardIs(fl, st.state.caches[c.to.node], c, st.state.now);
    hide Seen, Valid, Onward, Decoded, Wire, Arrived, Memory, After, LinksOnce, CopiesGood, AllPassedOn, ArrivalsGood,
      Copies;
    assert st'.accepted[..|st.accepted|] == st.accepted;
  }

  lemma AcceptArrived(fl: Flood, st: Story, st': Story, c: Copy)
    requires Inv(fl, st) && Accept(fl, st, st', c)
    ensures Arrived(fl, st')
  {
    NewNode(fl, st, st', c);
    hide Seen, Valid, WellFormed, Onward, Decoded, Wire, ArrivalsGood, AllPassedOn, Memory, After, LinksOnce, Reached;
    forall d | d in st'.carried
      ensures d in st'.state.flight || Reached(fl, st'.accepted, d.to.node)
    {
      ReachedGrows(fl, st.accepted, Arrival(c.to, c.from, c.hops), d.to.node);
      if d in st.carried && d in st.state.flight {
        CarriedHas(fl, st.accepted, d);
      }
    }
  }

  lemma AcceptKeeps(fl: Flood, st: Story, st': Story, c: Copy)
    requires Inv(fl, st) && Accept(fl, st, st', c)
    ensures Inv(fl, st')
  {
    hide Memory, CopiesGood, ArrivalsGood, LinksOnce, AllPassedOn, Arrived, InTime, Transmissions;
    AcceptMemory(fl, st, st', c);
    AcceptCopies(fl, st, st', c);
    AcceptArrivals(fl, st, st', c);
    AcceptLinks(fl, st, st', c);
    AcceptPassedOn(fl, st, st', c);
    AcceptArrived(fl, st, st', c);
    AcceptCounted(fl, st, st', c);
  }

  /** Every step of a calm run keeps the invariant. */
  lemma {:induction false} StepKeeps(fl: Flood, st: Story, e: Event)
    requires Inv(fl, st) && Calm(fl, st.state, e)
    ensures Inv(fl, Next(fl, st, e))
  {
    hide Quiet, Accept, Calm, Next, Memory, CopiesGood, ArrivalsGood, LinksOnce, AllPassedOn, Arrived;
    EveryStep(fl, st, e);
    if Quiet(fl, st, Next(fl, st, e)) {
      QuietKeeps(fl, st, Next(fl, st, e));
    } else {
      AcceptKeeps(fl, st, Next(fl, st, e), st.state.flight[e.index]);
    }
  }
}
