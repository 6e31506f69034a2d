/** Nodes of mesh.c joined by lossless links. In-flight copies may be delivered in any order. */
module Network {
  import opened Arith
  import opened Bits
  import opened SeenSpec
  import opened PacketCodec
  import opened Transport
  import opened MeshSpec

  // One end of a connection: a node and the peer slot that holds the connection.
  datatype Port = Port(node: nat, slot: nat)

  // The other end of the connection in each slot of each node, and which nodes relay. Two nodes may share
  // several connections, and a node may be connected to itself.
  datatype Net = Net(ports: seq<seq<Port>>, relays: seq<bool>)

  predicate HasPort(net: Net, p: Port)
  {
    p.node < |net.ports| && p.slot < |net.ports[p.node]|
  }

  function FarEnd(net: Net, p: Port): Port
    requires HasPort(net, p)
  {
    net.ports[p.node][p.slot]
  }

  // Every connection has two different ends, in slots of nodes of the net.
  ghost predicate WellFormed(net: Net)
  {
    && |net.relays| == |net.ports|
    && (forall n :: 0 <= n < |net.ports| ==> |net.ports[n]| <= MAX_PEERS)
    && forall p :: HasPort(net, p) ==>
      HasPort(net, FarEnd(net, p)) && FarEnd(net, p) != p && FarEnd(net, FarEnd(net, p)) == p
  }

  // A frame on its way over a connection. hops counts the links since the origin; no node reads it.
  datatype Copy = Copy(from: Port, to: Port, hops: nat, wire: seq<byte>)

  datatype State = State(caches: seq<Cache>, flight: seq<Copy>, now: int)

  predicate OnLink(net: Net, c: Copy)
  {
    HasPort(net, c.from) && HasPort(net, c.to) && c.to == FarEnd(net, c.from)
  }

  ghost predicate Ok(net: Net, s: State)
  {
    && WellFormed(net) && |s.caches| == |net.ports|
    && (forall n :: 0 <= n < |s.caches| ==> Valid(s.caches[n]))
    && forall i :: 0 <= i < |s.flight| ==> OnLink(net, s.flight[i])
  }

  datatype Event = Originate(node: nat, packet: Packet) | Deliver(index: nat,
      addTime: int) | Tick(time: int) | Prune(node: nat)

  // The first k slots of a node but one.
  function Slots(n: nat, k: nat, but: int): (ps: seq<Port>)
    ensures forall p :: p in ps <==> p.node == n && p.slot < k && p.slot != but
    ensures |ps| == if 0 <= but < k then k - 1 else k
  {
    if k == 0 then [] else Slots(n, k - 1, but) + if k - 1 == but then [] else [Port(n, k - 1)]
  }

  // The slots that a node writes a frame to: all but the one it came by.
  function Outlets(net: Net, n: nat, but: int): (ps: seq<Port>)
    requires n < |net.ports|
    ensures forall p :: p in ps <==> p.node == n && HasPort(net, p) && p.slot != but
  {
    Slots(n, |net.ports[n]|, but)
  }

  function Copies(net: Net, ps: seq<Port>, hops: nat, wire: seq<byte>): (cs: seq<Copy>)
    requires forall p :: p in ps ==> HasPort(net, p)
    ensures |cs| == |ps|
  {
    seq(|ps|, i requires 0 <= i < |ps| => assert ps[i] in ps; Copy(ps[i], FarEnd(net, ps[i]), hops, wire))
  }

  lemma CopiesAre(net: Net, ps: seq<Port>, hops: nat, wire: seq<byte>)
    requires WellFormed(net) && forall p :: p in ps ==> HasPort(net, p)
    ensures forall i :: 0 <= i < |ps| ==> OnLink(net, Copies(net, ps, hops, wire)[i])
    ensures forall d :: d in Copies(net, ps, hops, wire) ==>
      d.from in ps && OnLink(net, d) && d.hops == hops && d.wire == wire
    ensures forall p :: p in ps ==> Copy(p, FarEnd(net, p), hops, wire) in Copies(net, ps, hops, wire)
  {
    var cs := Copies(net, ps, hops, wire);
    forall p | p in ps
      ensures Copy(p, FarEnd(net, p), hops, wire) in cs
    {
      var i :| 0 <= i < |ps| && ps[i] == p;
      assert cs[i] in cs;
    }
  }

  lemma LinkBack(net: Net, c: Copy)
    requires WellFormed(net) && OnLink(net, c)
    ensures FarEnd(net, c.to) == c.from && c.to != c.from
  {
  }

  // The copies a node sends on after one arrived.
  ghost function Onward(net: Net, cache: Cache, c: Copy, now: int): (cs: seq<Copy>)
    requires c.to.node < |net.ports| == |net.relays|
  {
    match Forwarded(cache, net.relays[c.to.node], c.wire, now)
    case None => []
    case Some(w) => Copies(net, Outlets(net, c.to.node, c.to.slot), c.hops + 1, w)
  }

  ghost predicate Enabled(net: Net, s: State, e: Event)
  {
    match e
    case Originate(n, p) => n < |net.ports| && Sendable(p)
    case Deliver(i, t) => i < |s.flight| && s.now <= t
    case Tick(t) => s.now <= t
    case Prune(n) => n < |net.ports|
  }

  // An event that is not enabled does not happen.
  ghost function Step(net: Net, s: State, e: Event): (s': State)
    requires Ok(net, s)
  {
    if !Enabled(net, s, e) then s
    else
      match e
      case Originate(n, p) =>
        s.(caches := s.caches[n := Added(s.caches[n], p.id, s.now)],
           flight := s.flight + Copies(net, Outlets(net, n, -1), 1, Wire(p)))
      case Deliver(i, t) =>
        var c := s.flight[i];
        State(s.caches[c.to.node := CacheAfter(s.caches[c.to.node], c.wire, s.now, t)],
              s.flight[..i] + s.flight[i + 1..] + Onward(net, s.caches[c.to.node], c, s.now), t)
      case Tick(t) => s.(now := t)
      case Prune(n) => s.(caches := s.caches[n := Pruned(s.caches[n], s.now)])
  }

  lemma OnwardFrom(net: Net, cache: Cache, c: Copy, now: int)
    requires WellFormed(net) && HasPort(net, c.to)
    ensures forall d :: d in Onward(net, cache, c, now) ==>
      d.from.node == c.to.node && d.from != c.to && OnLink(net, d) && d.hops == c.hops + 1
    ensures forall i :: 0 <= i < |Onward(net, cache, c, now)| ==> OnLink(net, Onward(net, cache, c, now)[i])
    ensures |Onward(net, cache, c, now)| <= MAX_PEERS
  {
    hide Forwarded;
    match Forwarded(cache, net.relays[c.to.node], c.wire, now)
    case None =>
    case Some(w) => CopiesAre(net, Outlets(net, c.to.node, c.to.slot), c.hops + 1, w);
  }

  // Taking element i out and adding some.
  lemma Removed(f: seq<Copy>, i: nat, out: seq<Copy>)
    requires i < |f|
    ensures forall d :: d in f[..i] + f[i + 1..] + out ==> d in f || d in out
    ensures forall d :: d in f ==> d == f[i] || d in f[..i] + f[i + 1..] + out
    ensures forall d :: d in out ==> d in f[..i] + f[i + 1..] + out
  {
    forall d | d in f
      ensures d == f[i] || d in f[..i] + f[i + 1..] + out
    {
      var k :| 0 <= k < |f| && f[k] == d;
      if k < i {
        assert d in f[..i];
      } else if k > i {
        assert f[i + 1..][k - i - 1] == d;
      }
    }
  }

  lemma {:induction false} StepOk(net: Net, s: State, e: Event)
    requires Ok(net, s)
    ensures Ok(net, Step(net, s, e))
  {
    hide Added, Checked, Pruned, Valid;
    if Enabled(net, s, e) {
      match e
      case Originate(n, p) =>
        ValidKept(s.caches[n], p.id, s.now);
        CopiesAre(net, Outlets(net, n, -1), 1, Wire(p));
      case Deliver(i, t) =>
        var c := s.flight[i];
        OnwardFrom(net, s.caches[c.to.node], c, s.now);
        Removed(s.flight, i, Onward(net, s.caches[c.to.node], c, s.now));
        hide Onward, WellFormed, CacheAfter, OnLink;
        assert Valid(CacheAfter(s.caches[c.to.node], c.wire, s.now, t));
      case Tick(_) =>
      case Prune(n) => ValidKept(s.caches[n], NO_ID, s.now);
    }
  }

  // ---- termination ----

  function Ttl(c: Copy): (t: nat)
    ensures t < 256
  {
    match Decoded(c.wire) case None => 0 case Some(p) => p.ttl as int
  }

  function Weight(f: seq<Copy>): nat
  {
    if f == [] then 0 else Pow(33, Ttl(f[0])) + Weight(f[1..])
  }

  lemma {:induction false} WeightAppend(f: seq<Copy>, g: seq<Copy>)
    ensures Weight(f + g) == Weight(f) + Weight(g)
  {
    if f == [] {
      assert f + g == g;
    } else {
      assert (f + g)[1..] == f[1..] + g;
      WeightAppend(f[1..], g);
    }
  }

  lemma OneMore(n: int, w: int)
    ensures (n + 1) * w == w + n * w
  {
  }

  lemma {:induction false} WeightSame(f: seq<Copy>, t: nat)
    requires forall c :: c in f ==> Ttl(c) == t
    ensures Weight(f) == |f| * Pow(33, t)
  {
    if f != [] {
      assert forall c :: c in f[1..] ==> c in f;
      WeightSame(f[1..], t);
      hide Pow, Ttl;
      assert Ttl(f[0]) == t;
      OneMore(|f[1..]|, Pow(33, t));
    }
  }

  // Nothing is known about the node but that what it sends on is at most a frame to each of its
  // slots, and only with a TTL one lower and above zero; its cache may have forgotten anything.
  ghost predicate Hop(f: seq<Copy>, f': seq<Copy>)
  {
    exists i, out :: HopAt(f, f', i, out)
  }

  ghost predicate HopAt(f: seq<Copy>, f': seq<Copy>, i: int, out: seq<Copy>)
  {
    && 0 <= i < |f| && f' == f[..i] + f[i + 1..] + out
    && |out| <= MAX_PEERS && forall d :: d in out ==> Ttl(d) == Ttl(f[i]) - 1 && Ttl(f[i]) > 1
  }

  lemma Outweighs(n: nat, t: nat)
    requires n <= 32 && t > 0
    ensures n * Pow(33, t - 1) < Pow(33, t)
  {
    PowPositive(33, t - 1);
    var w := Pow(33, t - 1);
    assert Pow(33, t) == 33 * w;
    MulMono(w, n, 32);
  }

  lemma WeightWithout(f: seq<Copy>, i: nat)
    requires i < |f|
    ensures Weight(f) == Weight(f[..i] + f[i + 1..]) + Pow(33, Ttl(f[i]))
  {
    hide Pow, Ttl;
    WeightAppend(f[..i], f[i + 1..]);
    WeightAppend(f[..i], f[i..]);
    assert f == f[..i] + f[i..] && f[i..][1..] == f[i + 1..];
  }

  lemma HopLightens(f: seq<Copy>, f': seq<Copy>)
    requires Hop(f, f')
    ensures Weight(f') < Weight(f)
  {
    hide Pow, Ttl, Weight;
    var i, out :| HopAt(f, f', i, out);
    var t := Ttl(f[i]);
    WeightWithout(f, i);
    WeightAppend(f[..i] + f[i + 1..], out);
    PowPositive(33, t);
    if out == [] {
      WeightNone();
    } else {
      assert out[0] in out;
      WeightSame(out, t - 1);
      Outweighs(|out|, t);
    }
  }

  lemma WeightNone()
    ensures Weight([]) == 0
  {
  }

  /** However the nodes' caches behave, at most Weight deliveries can follow one another. */
  lemma {:induction false} Finite(fs: seq<seq<Copy>>)
    requires fs != [] && forall i :: 0 <= i < |fs| - 1 ==> Hop(fs[i], fs[i + 1])
    ensures |fs| - 1 + Weight(fs[|fs| - 1]) <= Weight(fs[0])
  {
    if |fs| > 1 {
      var before := fs[..|fs| - 1];
      Finite(before);
      assert Hop(fs[|fs| - 2], fs[|fs| - 1]);
      HopLightens(fs[|fs| - 2], fs[|fs| - 1]);
    }
  }

  lemma {:induction false} DeliverIsHop(net: Net, s: State, e: Event)
    requires Ok(net, s) && Enabled(net, s, e) && e.Deliver?
    ensures Hop(s.flight, Step(net, s, e).flight)
  {
    var c := s.flight[e.index];
    var out := Onward(net, s.caches[c.to.node], c, s.now);
    OnwardFrom(net, s.caches[c.to.node], c, s.now);
    forall d | d in out
      ensures Ttl(d) == Ttl(c) - 1 && Ttl(c) > 1
    {
      var p := Decoded(c.wire).value;
      DecodeWire(Relayed(p));
      OneHopLess(p);
    }
    assert HopAt(s.flight, Step(net, s, e).flight, e.index, out);
  }

  ghost function Play(net: Net, s: State, es: seq<Event>): (s': State)
    requires Ok(net, s)
    ensures Ok(net, s')
    decreases |es|
  {
    if es == [] then s else StepOk(net, s, es[0]); Play(net, Step(net, s, es[0]), es[1..])
  }

  // The deliveries of a run that happen.
  ghost function Deliveries(net: Net, s: State, es: seq<Event>): nat
    requires Ok(net, s)
    decreases |es|
  {
    if es == [] then 0
    else
      StepOk(net, s, es[0]);
      (if es[0].Deliver? && Enabled(net, s, es[0]) then 1 else 0) + Deliveries(net, Step(net, s, es[0]), es[1..])
  }

  /** Without new originations every run delivers only finitely often, on every topology (parallel and
      circular connections included) and whatever the caches hold, expire or evict. */
  lemma {:induction false} RunFinite(net: Net, s: State, es: seq<Event>)
    requires Ok(net, s) && forall e :: e in es ==> !e.Originate?
    ensures Deliveries(net, s, es) + Weight(Play(net, s, es).flight) <= Weight(s.flight)
    decreases |es|
  {
    if es != [] {
      var e, s' := es[0], Step(net, s, es[0]);
      StepOk(net, s, e);
      RunFinite(net, s', es[1..]);
      if Enabled(net, s, e) && e.Deliver? {
        DeliverIsHop(net, s, e);
        HopLightens(s.flight, s'.flight);
      }
    }
  }

  // ---- the step is what the node object does ----

  // The slots of a node: k connections, active and accepting, in the first k slots.
  ghost predicate Wired(ps: seq<Peer>, k: nat)
  {
    && k <= |ps| == MAX_PEERS
    && (forall i :: 0 <= i < |ps| ==> ps[i].accepts == [])
    && (forall i :: 0 <= i < |ps| ==> (ps[i].active <==> i < k))
    && (forall i :: 0 <= i < k ==> ps[i].fd >= 0)
    && (forall i, j :: 0 <= i < j < k ==> ps[i].fd != ps[j].fd)
  }

  // The bytes that copies put on the connection in a slot.
  function Put(cs: seq<Copy>, p: Port): seq<byte>
  {
    if cs == [] then [] else Put(cs[..|cs| - 1], p) + if cs[|cs| - 1].from == p then Frame(cs[|cs| - 1].wire) else []
  }

  lemma {:induction false} PutSlots(net: Net, n: nat, k: nat, but: int, i: nat, hops: nat, wire: seq<byte>)
    requires n < |net.ports| && k <= |net.ports[n]|
    ensures Put(Copies(net, Slots(n, k, but), hops, wire), Port(n, i)) == if i < k && i != but then Frame(wire) else []
    decreases k
  {
    hide *;
    PutNone(net, Port(n, i), hops, wire);
    HasSlots(net, n);
    SlotsStep(n, k, but);
    if k != 0 {
      PutSlots(net, n, k - 1, but, i, hops, wire);
      if k - 1 != but {
        PutMore(net, Slots(n, k - 1, but), Port(n, k - 1), Port(n, i), hops, wire);
      }
    }
  }

  lemma SlotsStep(n: nat, k: nat, but: int)
    ensures k == 0 ==> Slots(n, k, but) == []
    ensures k > 0 ==> Slots(n, k, but) == Slots(n, k - 1, but) + if k - 1 == but then [] else [Port(n, k - 1)]
    ensures k > 0 && k - 1 == but ==> Slots(n, k, but) == Slots(n, k - 1, but)
  {
  }

  lemma PutMore(net: Net, ps: seq<Port>, q: Port, p: Port, hops: nat, wire: seq<byte>)
    requires HasPort(net, q) && forall r :: r in ps ==> HasPort(net, r)
    ensures Put(Copies(net, ps + [q], hops, wire), p)
         == Put(Copies(net, ps, hops, wire), p) + if q == p then Frame(wire) else []
  {
    hide Frame;
    var cs := Copies(net, ps + [q], hops, wire);
    assert cs[..|ps|] == Copies(net, ps, hops, wire);
  }

  lemma PutNone(net: Net, p: Port, hops: nat, wire: seq<byte>)
    ensures Put([], p) == [] && Put(Copies(net, [], hops, wire), p) == []
  {
  }

  lemma HasSlots(net: Net, n: nat)
    requires n < |net.ports|
    ensures forall i: nat :: HasPort(net, Port(n, i)) <==> i < |net.ports[n]|
    ensures forall p: Port :: p.node == n && p.slot < |net.ports[n]| ==> HasPort(net, p)
  {
  }

  /** What a wired node writes to each of its connections when a frame arrives in a slot is exactly what the
      network puts in flight on that connection; its cache becomes the network's. */
  lemma NodeMatches(net: Net, v: View, c: Copy, i: nat, now: int, addTime: int)
    requires WellFormed(net) && HasPort(net, c.to) && Valid(v.seen) && Wired(v.peers, |net.ports[c.to.node]|)
    requires i < |v.peers|
    ensures var v' := AfterReceive(v, net.relays[c.to.node], c.wire, v.peers[c.to.slot].fd, now, addTime);
      && v'.seen == CacheAfter(v.seen, c.wire, now, addTime) && Wired(v'.peers, |net.ports[c.to.node]|)
      && v'.peers[i].out == v.peers[i].out + Put(Onward(net, v.seen, c, now), Port(c.to.node, i))
      && v'.relayed == v.relayed + (if Forwarded(v.seen, net.relays[c.to.node], c.wire, now).Some? then 1 else 0)
  {
    hide Fresh, CacheAfter, Frame, Decoded, Wire, Put, Copies, Slots, SentTo;
    var n := c.to.node;
    PutNone(net, Port(n, i), 0, []);
    match Forwarded(v.seen, net.relays[n], c.wire, now)
    case None =>
    case Some(w) =>
      FanWired(v.peers, |net.ports[n]|, w, v.peers[c.to.slot].fd);
      SentToAccepting(v.peers[i], w);
      PutSlots(net, n, |net.ports[n]|, c.to.slot, i, c.hops + 1, w);
  }

  /** A wired node that sends a packet of its own writes it to every connection, as the network does. */
  lemma NodeMatchesOrigin(net: Net, v: View, n: nat, p: Packet, i: nat, now: int)
    requires WellFormed(net) && n < |net.ports| && Valid(v.seen) && Wired(v.peers, |net.ports[n]|) && i < |v.peers|
    ensures var v' := AfterSend(v, p, now);
      && v'.seen == Added(v.seen, p.id, now) && Wired(v'.peers, |net.ports[n]|)
      && v'.peers[i].out == v.peers[i].out + Put(Copies(net, Outlets(net, n, -1), 1, Wire(p)), Port(n, i))
  {
    hide Added, Frame, Wire, Put, Copies, Slots, SentTo;
    FanWired(v.peers, |net.ports[n]|, Wire(p), -1);
    SentToAccepting(v.peers[i], Wire(p));
    PutSlots(net, n, |net.ports[n]|, -1, i, 1, Wire(p));
  }

  lemma SentToAccepting(p: Peer, w: seq<byte>)
    requires p.accepts == []
    ensures p.active && p.fd >= 0 ==> SentTo(p, w) == p.(out := p.out + Frame(w))
    ensures !p.active ==> SentTo(p, w) == p
  {
    SentToCarries(p, w);
  }

  lemma FanWired(ps: seq<Peer>, k: nat, w: seq<byte>, fd: int)
    requires Wired(ps, k)
    ensures Wired(FanOut(ps, w, fd), k)
  {
    hide SentTo;
    forall i | 0 <= i < |ps|
      ensures FanOut(ps, w, fd)[i].accepts == []
      ensures FanOut(ps, w, fd)[i].active == ps[i].active && FanOut(ps, w, fd)[i].fd == ps[i].fd
    {
      SentToAccepting(ps[i], w);
    }
  }
}
