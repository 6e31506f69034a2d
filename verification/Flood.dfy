/** One packet on its way through the network, and the kinds of step there are for it. */
module Flood {
  import opened Bits
  import opened SeenSpec
  import opened PacketCodec
  import opened MeshSpec
  import opened Network

  // A packet, where it starts, and until when the nodes that saw it remember it.
  datatype Flood = Flood(net: Net, origin: nat, packet: Packet, deadline: int)

  // A node took the packet as new: in which slot, from the other end of which connection, after how many links.
  datatype Arrival = Arrival(at: Port, from: Port, hops: nat)

  // The network, who has accepted the packet in which order, and every copy of it ever sent.
  datatype Story = Story(state: State, accepted: seq<Arrival>, carried: seq<Copy>)

  predicate Has(c: Copy, x: Id)
  {
    Decoded(c.wire).Some? && Decoded(c.wire).value.id == x
  }

  // The event hands a copy of the packet to a node that has not seen it.
  ghost predicate Accepting(fl: Flood, s: State, e: Event)
    requires Ok(fl.net, s)
  {
    && e.Deliver? && Enabled(fl.net, s, e) && Has(s.flight[e.index], fl.packet.id)
    && !Seen(s.caches[s.flight[e.index].to.node], fl.packet.id, s.now)
  }

  ghost function Next(fl: Flood, st: Story, e: Event): Story
    requires Ok(fl.net, st.state)
  {
    var s, s' := st.state, Step(fl.net, st.state, e);
    if Accepting(fl, s, e) then
      var c := s.flight[e.index];
      Story(s', st.accepted + [Arrival(c.to, c.from, c.hops)],
            st.carried + Onward(fl.net, s.caches[c.to.node], c, s.now))
    else
      Story(s', st.accepted, st.carried)
  }

  // What the theorems ask of the run: sixty seconds are not over, no cache evicts this packet's id, and
  // no other packet gets it.
  ghost predicate Calm(fl: Flood, s: State, e: Event)
    requires Ok(fl.net, s)
  {
    Enabled(fl.net, s, e) ==>
      match e
      case Originate(n, p) => p.id != fl.packet.id && !Drops(s.caches[n], fl.packet.id, s.now)
      case Deliver(i, t) =>
        t <= fl.deadline && KeepsId(s.caches[s.flight[i].to.node], s.flight[i].wire, fl.packet.id, s.now, t)
      case Tick(t) => t <= fl.deadline
      case Prune(_) => true
  }

  // Taking in the frame, if it is new, does not evict x.
  ghost predicate KeepsId(cache: Cache, raw: seq<byte>, x: Id, now: int, addTime: int)
    requires Valid(cache)
  {
    Fresh(cache, raw, now) ==> !Drops(Checked(cache, Decoded(raw).value.id, now), x, addTime)
  }

  // ---- one cache ----

  lemma CacheRemembers(cache: Cache, raw: seq<byte>, x: Id, now: int, addTime: int, later: int)
    requires Valid(cache) && now <= addTime <= later && KeepsId(cache, raw, x, now, addTime)
    ensures Seen(cache, x, later) ==> Seen(CacheAfter(cache, raw, now, addTime), x, later)
    ensures Fresh(cache, raw, now) && Decoded(raw).value.id == x && later - addTime <= TTL_SEC
      ==> Seen(CacheAfter(cache, raw, now, addTime), x, later)
  {
    hide Drops, Added, Checked, Seen;
    if Decoded(raw).Some? {
      var y := Decoded(raw).value.id;
      ValidKept(cache, y, now);
      LookKeeps(cache, y, x, now, later);
      AddKeeps(Checked(cache, y, now), y, x, addTime, later);
    }
  }

  lemma CacheInvents(cache: Cache, raw: seq<byte>, x: Id, now: int, addTime: int)
    requires Valid(cache) && now <= addTime && !(Fresh(cache, raw, now) && Decoded(raw).value.id == x)
    ensures Seen(CacheAfter(cache, raw, now, addTime), x, addTime) ==> Seen(cache, x, now)
  {
    hide Drops, Added, Checked, Seen;
    if Decoded(raw).Some? && Seen(CacheAfter(cache, raw, now, addTime), x, addTime) {
      var y := Decoded(raw).value.id;
      ValidKept(cache, y, now);
      LookKeeps(cache, y, x, now, addTime);
      AddKeeps(Checked(cache, y, now), y, x, addTime, addTime);
      if x != y || !Fresh(cache, raw, now) {
        TimeForgets(cache, x, now, addTime);
      }
    } else if Decoded(raw).None? && Seen(cache, x, addTime) {
      TimeForgets(cache, x, now, addTime);
    }
  }

  // ---- the two kinds of step ----

  // A cache that goes on seeing the packet, and does not start to.
  ghost predicate Steady(fl: Flood, a: Cache, b: Cache, now: int, now': int)
  {
    && (Seen(a, fl.packet.id, fl.deadline) ==> Seen(b, fl.packet.id, fl.deadline))
    && (Seen(b, fl.packet.id, now') ==> Seen(a, fl.packet.id, now))
  }

  ghost predicate InTime(fl: Flood, s: State)
  {
    && Ok(fl.net, s) && fl.origin < |fl.net.ports| && Sendable(fl.packet)
    && fl.deadline - TTL_SEC <= s.now <= fl.deadline
  }

  // Nothing happens to the packet, or a duplicate of it is dropped.
  ghost predicate Quiet(fl: Flood, st: Story, st': Story)
  {
    && InTime(fl, st.state) && InTime(fl, st'.state) && st.state.now <= st'.state.now
    && st'.accepted == st.accepted && st'.carried == st.carried
    && (forall n :: 0 <= n < |fl.net.ports| ==>
      Steady(fl, st.state.caches[n], st'.state.caches[n], st.state.now, st'.state.now))
    && (forall c :: c in st'.state.flight && Has(c, fl.packet.id) ==> c in st.state.flight)
    && (forall c :: c in st.state.flight && Has(c, fl.packet.id) ==>
         c in st'.state.flight || Seen(st.state.caches[c.to.node], fl.packet.id, st.state.now))
  }

  // c is accepted.
  ghost predicate Accept(fl: Flood, st: Story, st': Story, c: Copy)
  {
    && InTime(fl, st.state) && InTime(fl, st'.state) && st.state.now <= st'.state.now
    && c in st.state.flight && Has(c, fl.packet.id) && !Seen(st.state.caches[c.to.node], fl.packet.id, st.state.now)
    && st'.accepted == st.accepted + [Arrival(c.to, c.from, c.hops)]
    && var on := Onward(fl.net, st.state.caches[c.to.node], c, st.state.now);
    && st'.carried == st.carried + on
    && Seen(st'.state.caches[c.to.node], fl.packet.id, fl.deadline)
    && (forall n :: 0 <= n < |fl.net.ports| && n != c.to.node ==>
      Steady(fl, st.state.caches[n], st'.state.caches[n], st.state.now, st'.state.now))
    && (forall d :: d in st'.state.flight && Has(d, fl.packet.id) ==> d in st.state.flight || d in on)
    && (forall d :: d in st.state.flight && Has(d, fl.packet.id) ==> d == c || d in st'.state.flight)
    && (forall d :: d in on ==> d in st'.state.flight)
  }

  lemma SteadySelf(fl: Flood, a: Cache, now: int, now': int)
    requires now <= now'
    ensures Steady(fl, a, a, now, now')
  {
    hide Seen;
    if Seen(a, fl.packet.id, now') {
      TimeForgets(a, fl.packet.id, now, now');
    }
  }

  lemma {:induction false} QuietLocal(fl: Flood, st: Story, e: Event)
    requires InTime(fl, st.state) && Calm(fl, st.state, e) && (!e.Deliver? || !Enabled(fl.net, st.state, e))
    ensures Quiet(fl, st, Next(fl, st, e))
  {
    hide Seen, Drops, Added, Pruned, Valid, Decoded, Wire;
    var s, s' := st.state, Step(fl.net, st.state, e);
    StepOk(fl.net, s, e);
    forall n | 0 <= n < |fl.net.ports|
      ensures Steady(fl, s.caches[n], s'.caches[n], s.now, s'.now)
    {
      SteadySelf(fl, s.caches[n], s.now, s'.now);
      if Enabled(fl.net, s, e) && e.Originate? {
        AddKeeps(s.caches[n], e.packet.id, fl.packet.id, s.now, fl.deadline);
        AddKeeps(s.caches[n], e.packet.id, fl.packet.id, s.now, s.now);
      } else if Enabled(fl.net, s, e) && e.Prune? {
        LookKeeps(s.caches[n], NO_ID, fl.packet.id, s.now, fl.deadline);
        LookKeeps(s.caches[n], NO_ID, fl.packet.id, s.now, s.now);
      }
    }
    if Enabled(fl.net, s, e) && e.Originate? {
      DecodeWire(e.packet);
      CopiesAre(fl.net, Outlets(fl.net, e.node, -1), 1, Wire(e.packet));
    }
  }

  lemma OnwardHas(net: Net, cache: Cache, c: Copy, now: int, x: Id)
    requires WellFormed(net) && HasPort(net, c.to)
    ensures forall d :: d in Onward(net, cache, c, now) ==> Has(d, x) == Has(c, x)
  {
    if Onward(net, cache, c, now) != [] {
      DecodeWire(Relayed(Decoded(c.wire).value));
    }
  }

  lemma {:induction false} DeliverStep(fl: Flood, st: Story, e: Event)
    requires InTime(fl, st.state) && Calm(fl, st.state, e) && e.Deliver? && Enabled(fl.net, st.state, e)
    ensures var st' := Next(fl, st, e);
      if Accepting(fl, st.state, e) then Accept(fl, st, st', st.state.flight[e.index]) else Quiet(fl, st, st')
  {
    var s, s' := st.state, Step(fl.net, st.state, e);
    var c, x := s.flight[e.index], fl.packet.id;
    var cache := s.caches[c.to.node];
    StepOk(fl.net, s, e);
    Removed(s.flight, e.index, Onward(fl.net, cache, c, s.now));
    OnwardHas(fl.net, cache, c, s.now, x);
    hide Seen, Valid, Decoded, Onward, CacheAfter, KeepsId, WellFormed;
    CacheRemembers(cache, c.wire, x, s.now, e.addTime, fl.deadline);
    AcceptingIsFresh(fl, s, e);
    forall n | 0 <= n < |fl.net.ports| && (n != c.to.node || !Accepting(fl, s, e))
      ensures Steady(fl, s.caches[n], s'.caches[n], s.now, s'.now)
    {
      SteadySelf(fl, s.caches[n], s.now, s'.now);
      if n == c.to.node {
        CacheInvents(cache, c.wire, x, s.now, e.addTime);
      }
    }
    if !Accepting(fl, s, e) && !Has(c, x) {
      assert forall d :: d in s'.flight && Has(d, x) ==> d in s.flight;
    } else if !Accepting(fl, s, e) {
      DuplicateQuiet(fl, s, e);
    }
  }

  lemma {:induction false} AcceptingIsFresh(fl: Flood, s: State, e: Event)
    requires Ok(fl.net, s) && e.Deliver? && Enabled(fl.net, s, e)
    ensures var c := s.flight[e.index];
      Accepting(fl, s, e) <==> Fresh(s.caches[c.to.node], c.wire, s.now) && Decoded(c.wire).value.id == fl.packet.id
  {
  }

  // A node that has seen the packet sends nothing on.
  lemma {:induction false} DuplicateQuiet(fl: Flood, s: State, e: Event)
    requires Ok(fl.net, s) && e.Deliver? && Enabled(fl.net, s, e)
    requires Has(s.flight[e.index], fl.packet.id) && !Accepting(fl, s, e)
    ensures Onward(fl.net, s.caches[s.flight[e.index].to.node], s.flight[e.index], s.now) == []
    ensures Seen(s.caches[s.flight[e.index].to.node], fl.packet.id, s.now)
  {
  }

  lemma {:induction false} EveryStep(fl: Flood, st: Story, e: Event)
    requires InTime(fl, st.state) && Calm(fl, st.state, e)
    ensures Quiet(fl, st, Next(fl, st, e))
      || (Accepting(fl, st.state, e) && Accept(fl, st, Next(fl, st, e), st.state.flight[e.index]))
  {
    hide Quiet, Accept, InTime, Calm, Next;
    if e.Deliver? && Enabled(fl.net, st.state, e) {
      DeliverStep(fl, st, e);
    } else {
      QuietLocal(fl, st, e);
    }
  }
}
