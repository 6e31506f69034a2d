/** What holds of a packet's copies on every run whatsoever: caches may expire, evict and let the packet in
    again, as long as no other packet gets its id. */
module FloodFaith {
  import opened Bits
  import opened Options
  import opened SeenSpec
  import opened PacketCodec
  import opened MeshSpec
  import opened Network
  import opened Flood
  import opened FloodInvariant
  import opened FloodRuns

  // The packet at the stage that its links say, sent by a node that is as near to the origin.
  ghost predicate FaithfulCopy(fl: Flood, c: Copy)
  {
    && 1 <= c.hops <= Reach(fl) && c.wire == Wire(After(fl, c.hops))
    && OnLink(fl.net, c) && Within(fl.net, fl.origin, c.from.node, c.hops - 1)
  }

  ghost predicate Faithful(fl: Flood, s: State)
  {
    forall c :: c in s.flight && Has(c, fl.packet.id) ==> FaithfulCopy(fl, c)
  }

  ghost predicate OtherId(fl: Flood, e: Event) { e.Originate? ==> e.packet.id != fl.packet.id }

  // The origin sends the packet when no copy with its id is about; what happens then does not use the id again.
  ghost predicate FreshId(fl: Flood, s: State, es: seq<Event>)
  {
    && Ok(fl.net, s) && fl.origin < |fl.net.ports| && Sendable(fl.packet)
    && (forall c :: c in s.flight ==> !Has(c, fl.packet.id))
    && forall e :: e in es ==> OtherId(fl, e)
  }

  ghost function AtEnd(fl: Flood, s: State, es: seq<Event>): (s': State)
    requires Ok(fl.net, s)
    ensures Ok(fl.net, s')
  {
    StepOk(fl.net, s, Originate(fl.origin, fl.packet));
    Play(fl.net, Step(fl.net, s, Originate(fl.origin, fl.packet)), es)
  }

  lemma WithinStep(net: Net, a: nat, b: nat, c: nat, k: nat)
    requires WellFormed(net) && Within(net, a, b, k) && Linked(net, b, c)
    ensures Within(net, a, c, k + 1)
  {
    hide WellFormed;
    LinkedBoth(net, b, c);
    var p :| Path(net, p) && p[0] == a && p[|p| - 1] == b && |p| <= k + 1;
    var q := p + [c];
    assert forall i :: 0 <= i < |p| - 1 ==> Linked(net, q[i], q[i + 1]) by {
      assert forall i :: 0 <= i < |p| - 1 ==> Linked(net, p[i], p[i + 1]);
    }
    assert Linked(net, q[|p| - 1], q[|p|]);
    assert Path(net, q);
  }

  lemma CopyLinks(net: Net, c: Copy)
    requires OnLink(net, c)
    ensures Linked(net, c.from.node, c.to.node) && c.to.node < |net.ports|
  {
  }

  // A faithful copy makes faithful copies.
  lemma OnwardFaithful(fl: Flood, cache: Cache, c: Copy, now: int)
    requires WellFormed(fl.net) && Sendable(fl.packet) && FaithfulCopy(fl, c)
    ensures forall d :: d in Onward(fl.net, cache, c, now) ==> FaithfulCopy(fl, d)
  {
    hide Wire, Decoded, Seen, After, Within;
    var on := Onward(fl.net, cache, c, now);
    OnwardFrom(fl.net, cache, c, now);
    StageDecodes(fl, c.hops);
    if on != [] {
      assert !Seen(cache, fl.packet.id, now);
      CopyLinks(fl.net, c);
      OnwardIs(fl, cache, c, now);
      WithinStep(fl.net, fl.origin, c.from.node, c.to.node, c.hops - 1);
      hide Onward;
      forall d | d in on
        ensures FaithfulCopy(fl, d)
      {
        assert d.wire == Wire(After(fl, c.hops + 1));
      }
    }
  }

  /** Every step keeps the copies faithful. */
  lemma {:induction false} FaithfulStep(fl: Flood, s: State, e: Event)
    requires Ok(fl.net, s) && Sendable(fl.packet) && Faithful(fl, s) && OtherId(fl, e)
    ensures Faithful(fl, Step(fl.net, s, e))
  {
    hide FaithfulCopy, Onward, Wire, Decoded, CacheAfter, Added, Pruned, Valid;
    if Enabled(fl.net, s, e) {
      if e.Deliver? {
        var c := s.flight[e.index];
        var cache := s.caches[c.to.node];
        Removed(s.flight, e.index, Onward(fl.net, cache, c, s.now));
        OnwardHas(fl.net, cache, c, s.now, fl.packet.id);
        if Has(c, fl.packet.id) {
          OnwardFaithful(fl, cache, c, s.now);
        }
      } else if e.Originate? {
        DecodeWire(e.packet);
        CopiesAre(fl.net, Outlets(fl.net, e.node, -1), 1, Wire(e.packet));
      }
    }
  }

  lemma {:induction false} FaithfulStart(fl: Flood, s: State)
    requires FreshId(fl, s, [])
    ensures Faithful(fl, Step(fl.net, s, Originate(fl.origin, fl.packet)))
  {
    hide Wire, Decoded, Added, After, Valid;
    FirstStage(fl);
    assert Path(fl.net, [fl.origin]);
    assert Within(fl.net, fl.origin, fl.origin, 0);
    CopiesAre(fl.net, Outlets(fl.net, fl.origin, -1), 1, Wire(fl.packet));
    forall c | c in Copies(fl.net, Outlets(fl.net, fl.origin, -1), 1, Wire(fl.packet))
      ensures FaithfulCopy(fl, c)
    {
    }
  }

  lemma {:induction false} PlayFaithful(fl: Flood, s: State, es: seq<Event>)
    requires Ok(fl.net, s) && Sendable(fl.packet) && Faithful(fl, s) && forall e :: e in es ==>
      OtherId(fl, e)
    ensures Faithful(fl, Play(fl.net, s, es))
    decreases |es|
  {
    if es != [] {
      hide Faithful, Step, OtherId;
      assert es[0] in es;
      StepOk(fl.net, s, es[0]);
      FaithfulStep(fl, s, es[0]);
      PlayFaithful(fl, Step(fl.net, s, es[0]), es[1..]);
    }
  }

  lemma {:induction false} FaithfulAtEnd(fl: Flood, s: State, es: seq<Event>)
    requires FreshId(fl, s, es)
    ensures Faithful(fl, AtEnd(fl, s, es))
  {
    hide Faithful, Step, OtherId;
    StepOk(fl.net, s, Originate(fl.origin, fl.packet));
    FaithfulStart(fl, s);
    PlayFaithful(fl, Step(fl.net, s, Originate(fl.origin, fl.packet)), es);
  }

  /** On every run, every copy in flight is the packet, its TTL lower by one for each link after the first. */
  lemma {:induction false} CopiesFaithful(fl: Flood, s: State, es: seq<Event>, c: Copy)
    requires FreshId(fl, s, es) && c in AtEnd(fl, s, es).flight && Has(c, fl.packet.id)
    ensures 1 <= c.hops <= Reach(fl)
    ensures var q := Decoded(c.wire).value;
      && q.version == VERSION && q.flags == fl.packet.flags && q.payload == fl.packet.payload
      && (StartTtl(fl) > 0 ==> q.ttl as int == StartTtl(fl) - (c.hops - 1))
  {
    hide FreshId, AtEnd, Wire, Decoded;
    FaithfulAtEnd(fl, s, es);
    SendablePacket(fl, s, es);
    assert FaithfulCopy(fl, c);
    StageDecodes(fl, c.hops);
    TtlOf(fl, c.hops);
  }

  lemma SendablePacket(fl: Flood, s: State, es: seq<Event>)
    requires FreshId(fl, s, es)
    ensures Sendable(fl.packet) && WellFormed(fl.net)
  {
  }

  /** On every run and in any order, nobody farther away than the TTL allows is ever sent the packet. */
  lemma {:induction false} NoFartherThanTtl(fl: Flood, s: State, es: seq<Event>, c: Copy)
    requires FreshId(fl, s, es) && c in AtEnd(fl, s, es).flight && Has(c, fl.packet.id)
    ensures Within(fl.net, fl.origin, c.to.node, Reach(fl))
  {
    hide FreshId, AtEnd, Wire, Decoded, Within;
    FaithfulAtEnd(fl, s, es);
    SendablePacket(fl, s, es);
    assert FaithfulCopy(fl, c);
    CopyLinks(fl.net, c);
    WithinStep(fl.net, fl.origin, c.from.node, c.to.node, c.hops - 1);
    ShorterWithin(fl.net, fl.origin, c.to.node, c.hops, Reach(fl));
  }

  lemma FaithfulIs(fl: Flood, c: Copy)
    requires FaithfulCopy(fl, c)
    ensures 1 <= c.hops <= Reach(fl) && c.wire == Wire(After(fl, c.hops))
  {
  }

  /** On every run, a node with the mesh key that takes any copy of a packet made by vex_mesh_send as new
      shows the message sent. */
  lemma {:induction false} MessageArrives(fl: Flood, s: State, es: seq<Event>, c: Copy, key: seq<byte>,
                                          message: seq<byte>, nonce: seq<byte>, idNonce: seq<byte>)
    requires |key| == 32 && |nonce| == 24 && |idNonce| == 8 && ShortEnough(message)
    requires fl.packet == Origin(key, fl.packet.ttl, message, nonce, idNonce)
    requires FreshId(fl, s, es) && c in AtEnd(fl, s, es).flight && Has(c, fl.packet.id)
    requires c.to.node < |fl.net.ports| && Fresh(AtEnd(fl, s, es).caches[c.to.node], c.wire, AtEnd(fl, s, es).now)
    ensures Shown(key, AtEnd(fl, s, es).caches[c.to.node], c.wire, AtEnd(fl, s, es).now) == Some(message)
  {
    hide AtEnd, Wire, Decoded, Shown, Origin, Fresh, FaithfulCopy;
    var at := AtEnd(fl, s, es);
    FaithfulAtEnd(fl, s, es);
    FaithfulIs(fl, c);
    ShownIsMessage(key, fl.packet.ttl, After(fl, c.hops).ttl, message, nonce, idNonce, at.caches[c.to.node], at.now);
  }
}
