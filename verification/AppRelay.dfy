/** relayPacket of app/App.tsx, and its agreement with vex_mesh_receive. */
module AppRelay {
  import opened Bits
  import opened Options
  import opened SeenSpec
  import opened SeenWindow
  import opened PacketCodec
  import opened MeshSpec
  import opened AppSeen
  import opened AppAgree

  const QUEUE_MAX: nat := 10

  // A connected device: whether writing to it will work, and what was written.
  datatype Device = Device(id: string, works: bool, out: seq<seq<byte>>)

  // The cache's key: the id that the packet's hexadecimal form stands for.
  function Key(p: ParsedPacket): Id { HexToBytes(p.packetId) }

  function AppAccepts(m: seq<Item>, p: ParsedPacket, nowMs: int): bool
  {
    p.version == VERSION && !MapHas(m, Key(p), nowMs)
  }

  function AppForwarded(m: seq<Item>, p: ParsedPacket, nowMs: int): Option<seq<byte>>
    requires |p.raw| > 9
  {
    if AppAccepts(m, p, nowMs) && p.ttl > 1 then Some(RebuildWithNewTtl(p, p.ttl - 1)) else None
  }

  function Enqueued(q: seq<seq<byte>>, packet: seq<byte>): seq<seq<byte>>
  {
    (if |q| >= QUEUE_MAX then q[1..] else q) + [packet]
  }

  // A queue after that many packets.
  function EnqueuedAll(packets: seq<seq<byte>>): seq<seq<byte>>
  {
    if packets == [] then [] else Enqueued(EnqueuedAll(packets[..|packets| - 1]), packets[|packets| - 1])
  }

  /** The queue keeps the newest ten packets, in order. */
  lemma {:induction false} NewestTen(packets: seq<seq<byte>>)
    ensures EnqueuedAll(packets) == packets[if |packets| > 10 then |packets| - 10 else 0..]
  {
    if packets != [] {
      var before := packets[..|packets| - 1];
      NewestTen(before);
      assert packets == before + [packets[|packets| - 1]];
    }
  }

  // Every device but the source gets the frame; one that cannot be written to is dropped.
  function Served(ds: seq<Device>, source: string, wire: seq<byte>): seq<Device>
  {
    if ds == [] then []
    else
      var d := ds[|ds| - 1];
      Served(ds[..|ds| - 1], source, wire)
      + (if d.id == source then [d] else if d.works then [d.(out := d.out + [wire])] else [])
  }

  function ServedCount(ds: seq<Device>, source: string): nat
  {
    if ds == [] then 0
    else ServedCount(ds[..|ds| - 1], source) + (if ds[|ds| - 1].id != source && ds[|ds| - 1].works then 1 else 0)
  }

  lemma ServedLast(ds: seq<Device>, source: string, wire: seq<byte>)
    requires ds != []
    ensures var d := ds[|ds| - 1];
      Served(ds, source, wire) == Served(ds[..|ds| - 1], source, wire)
        + (if d.id == source then [d] else if d.works then [d.(out := d.out + [wire])] else [])
  {
    hide Served;
    ServedOne(ds, |ds| - 1, source, wire);
    assert ds[..|ds|] == ds;
  }

  // What becomes of one device.
  predicate Treated(d: Device, source: string, wire: seq<byte>, d': Device)
  {
    d'.id == d.id && d'.works == d.works &&
    if d.id == source then d'.out == d.out else d.works && d'.out == d.out + [wire]
  }

  /** The devices left are the source as it was and the working others with the frame written to them. */
  lemma {:induction false} ServedIff(ds: seq<Device>, source: string, wire: seq<byte>, d': Device)
    ensures d' in Served(ds, source, wire) <==> exists d :: d in ds && Treated(d, source, wire, d')
  {
    if ds != [] {
      hide Served;
      var n := |ds| - 1;
      ServedLast(ds, source, wire);
      ServedIff(ds[..n], source, wire, d');
      assert ds == ds[..n] + [ds[n]];
      var was := Served(ds[..n], source, wire);
      assert d' in Served(ds, source, wire) <==> d' in was || Treated(ds[n], source, wire, d');
    } else {
      ServedNone(source, wire);
    }
  }

  class AppNode {
    const seen: AppSeenCache
    var queue: seq<seq<byte>>
    var connected: seq<Device>
    var packetsSeen: nat
    var packetsRelayed: nat

    constructor ()
      ensures fresh(seen) && seen.cache == [] && queue == [] && connected == []
      ensures packetsSeen == 0 && packetsRelayed == 0
    {
      var cache := new AppSeenCache();
      seen := cache;
      queue, connected, packetsSeen, packetsRelayed := [], [], 0, 0;
    }

    method Enqueue(packet: seq<byte>)
      modifies this`queue
      ensures queue == Enqueued(old(queue), packet)
    {
      if |queue| >= QUEUE_MAX {
        queue := queue[1..];
      }
      queue := queue + [packet];
    }

    method RelayPacket(packet: ParsedPacket, source: string, nowMs: int, addMs: int)
      requires |packet.raw| > 9
      modifies this, seen
      ensures seen.cache ==
        if packet.version != VERSION then old(seen.cache)
        else if !AppAccepts(old(seen.cache), packet, nowMs) then AfterHas(old(seen.cache), Key(packet), nowMs)
        else AfterAdd(AfterHas(old(seen.cache), Key(packet), nowMs), Key(packet), addMs)
      ensures packetsSeen == if AppAccepts(old(seen.cache), packet, nowMs) then |seen.cache| else old(packetsSeen)
      ensures match AppForwarded(old(seen.cache), packet, nowMs)
        case None => queue == old(queue) && connected == old(connected) && packetsRelayed == old(packetsRelayed)
        case Some(wire) =>
          && queue == Enqueued(old(queue), wire) && connected == Served(old(connected), source, wire)
          && packetsRelayed == old(packetsRelayed) + (if ServedCount(old(connected), source) > 0 then 1 else 0)
    {
      hide AfterHas, AfterAdd, MapHas;
      if packet.version != VERSION { return; }
      var dup := seen.Has(Key(packet), nowMs);
      if dup { return; }
      seen.Add(Key(packet), addMs);
      packetsSeen := |seen.cache|;
      if packet.ttl <= 1 { return; }
      var relayData := RebuildWithNewTtl(packet, packet.ttl - 1);
      Enqueue(relayData);
      var relayedCount := Serve(source, relayData);
      if relayedCount > 0 {
        packetsRelayed := packetsRelayed + 1;
      }
    }

    // The loop over the connected devices; dropping one moves the rest up.
    method Serve(source: string, wire: seq<byte>) returns (count: nat)
      modifies this`connected
      ensures connected == Served(old(connected), source, wire) && count == ServedCount(old(connected), source)
    {
      hide Served, ServedCount;
      ghost var ds := connected;
      ghost var done := 0;
      count := 0;
      var i := 0;
      ServedNone(source, wire);
      assert ds[..0] == [] && connected[..0] == [];
      while i < |connected|
        invariant 0 <= i <= |connected| && 0 <= done <= |ds|
        invariant connected[..i] == Served(ds[..done], source, wire) && connected[i..] == ds[done..]
        invariant count == ServedCount(ds[..done], source)
        decreases |connected| - i
      {
        ServedOne(ds, done, source, wire);
        ghost var front, d, rest := connected[..i], ds[done], ds[done + 1..];
        assert connected == front + [d] + rest;
        if connected[i].id == source {
          i := i + 1;
        } else if connected[i].works {
          connected := connected[i := connected[i].(out := connected[i].out + [wire])];
          count := count + 1;
          i := i + 1;
          assert connected == front + [d.(out := d.out + [wire])] + rest;
        } else {
          connected := connected[..i] + connected[i + 1..];
          assert connected == front + rest;
          assert front + [] == front;
        }
        done := done + 1;
      }
      assert ds[..done] == ds && connected[..i] == connected;
    }
  }

  lemma ServedNone(source: string, wire: seq<byte>)
    ensures Served([], source, wire) == [] && ServedCount([], source) == 0
  {
  }

  lemma ServedOne(ds: seq<Device>, k: nat, source: string, wire: seq<byte>)
    requires k < |ds|
    ensures var d := ds[k];
      && Served(ds[..k + 1], source, wire) == Served(ds[..k], source, wire)
           + (if d.id == source then [d] else if d.works then [d.(out := d.out + [wire])] else [])
      && ServedCount(ds[..k + 1], source) == ServedCount(ds[..k], source) + (if d.id != source && d.works then 1 else 0)
  {
    assert ds[..k + 1][..k] == ds[..k];
  }

  /** When the two caches answer alike, the app and the C node take the same decision on every frame
      no longer than a packet: new or not, and what to pass on. */
  lemma SameDecision(m: seq<Item>, seen: Cache, raw: seq<byte>, now: int)
    requires |raw| <= MAX_PACKET
    requires Decoded(raw).Some? ==>
      Seen(seen, Decoded(raw).value.id, Sec(now)) == MapHas(m, Decoded(raw).value.id, now)
    ensures var a := ParsePacket(raw);
      && (Fresh(seen, raw, Sec(now)) <==> a.Some? && AppAccepts(m, a.value, now))
      && Forwarded(seen, true, raw, Sec(now)) == if a.Some? then AppForwarded(m, a.value, now) else None
  {
    hide Seen, MapHas, Decoded, Wire, BytesToHex, HexToBytes;
    SameParse(raw);
    if Decoded(raw).Some? {
      HexRoundTrip(Decoded(raw).value.id);
      if Decoded(raw).value.ttl > 1 {
        RelayIsPatch(raw);
      }
    }
    ParsedLong(raw);
  }

  lemma ParsedLong(raw: seq<byte>)
    ensures ParsePacket(raw).Some? <==> |raw| >= 11
    ensures ParsePacket(raw).Some? ==> ParsePacket(raw).value.raw == raw
  {
  }

  /** After any run of arrivals put to both on one clock, as long as the array evicts the oldest and no packet
      comes while its own add is in doubt, the app and the C node decide alike on every frame, unless an add of
      its id is in doubt. */
  lemma {:induction false} SameRelay(evs: seq<AppAgree.Event>, raw: seq<byte>, now: int)
    requires Timed(evs) && (evs != [] ==> End(evs[|evs| - 1]) <= now)
    requires OldestFirst(Calls(evs)) && Punctual(evs) && |raw| <= MAX_PACKET
    requires Decoded(raw).Some? ==> !Doubtful(Stamped(evs), Decoded(raw).value.id, now)
    ensures var a, m, seen := ParsePacket(raw), Items(evs), Run(Calls(evs)).cache;
      && (Fresh(seen, raw, Sec(now)) <==> a.Some? && AppAccepts(m, a.value, now))
      && Forwarded(seen, true, raw, Sec(now)) == if a.Some? then AppForwarded(m, a.value, now) else None
  {
    hide Timed, OldestFirst, Punctual, Doubtful, Stamped, Calls, Items, Run, Seen, MapHas, Decoded, Fresh, Forwarded,
      AppForwarded, AppAccepts;
    if Decoded(raw).Some? {
      SameAnswers(evs, Decoded(raw).value.id, now);
    }
    SameDecision(Items(evs), Run(Calls(evs)).cache, raw, now);
  }
}
