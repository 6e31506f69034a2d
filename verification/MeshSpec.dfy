/** What one call of mesh.c does to a node, as functions of the node before it. */
module MeshSpec {
  import opened Bits
  import opened Options
  import opened Broadcast
  import opened SeenSpec
  import opened PacketCodec
  import opened Transport
  import Sha512

  const FLAG_ENCRYPTED: byte := 1
  const FLAG_BROADCAST: byte := 2
  const DEFAULT_TTL: byte := 7

  datatype View = View(seen: Cache, peers: seq<Peer>, sent: nat, received: nat, relayed: nat, dropped: nat)

  // ---- the shared key ----

  const SERVICE_UUID: string := "0000vc01-0000-1000-8000-00805f9b34fb"
  const APP_SERVICE: string := "0000VC01-0000-1000-8000-00805F9B34FB"

  function Ascii(s: string): (b: seq<byte>)
    requires forall i :: 0 <= i < |s| ==> s[i] < 128 as char
    ensures |b| == |s|
  {
    seq(|s|, i requires 0 <= i < |s| => s[i] as byte)
  }

  function KeyFrom(name: string): (k: seq<byte>)
    requires |name| < 1000 && forall i :: 0 <= i < |name| ==> name[i] < 128 as char
    ensures |k| == 32
  {
    Sha512.Sha512(Ascii(name))[..32]
  }

  // ---- sending ----

  predicate ShortEnough(message: seq<byte>)
  {
    |message| <= MAX_PAYLOAD - 100
  }

  // The packet that carries a message, given the random bytes drawn for it.
  ghost function Origin(key: seq<byte>, ttl: byte, message: seq<byte>, nonce: seq<byte>,
      idNonce: seq<byte>): (p: Packet)
    requires |key| == 32 && |nonce| == 24 && |idNonce| == 8 && ShortEnough(message)
    ensures Sendable(p) && p.ttl == ttl
  {
    var c := Encrypt(key, nonce, message).value;
    Packet(VERSION, IdOf(c, idNonce), ttl, FLAG_ENCRYPTED | FLAG_BROADCAST, c)
  }

  function AfterSend(v: View, p: Packet, now: int): View
    requires Valid(v.seen)
  {
    v.(seen := Added(v.seen, p.id, now), peers := FanOut(v.peers, Wire(p), -1), sent := v.sent + 1)
  }

  // ---- receiving ----

  ghost predicate Fresh(seen: Cache, raw: seq<byte>, now: int)
  {
    Decoded(raw).Some? && !Seen(seen, Decoded(raw).value.id, now)
  }

  // The dedup cache after a frame: looked at, and added to if the packet is new.
  ghost function CacheAfter(seen: Cache, raw: seq<byte>, now: int, addTime: int): (c: Cache)
    requires Valid(seen)
    ensures Valid(c)
  {
    match Decoded(raw)
    case None => seen
    case Some(p) =>
      ValidKept(seen, p.id, now);
      var looked := Checked(seen, p.id, now);
      if Seen(seen, p.id, now) then looked else ValidKept(looked, p.id, addTime); Added(looked, p.id, addTime)
  }

  // What is passed on to every peer but the source.
  ghost function Forwarded(seen: Cache, relay: bool, raw: seq<byte>, now: int): (wire: Option<seq<byte>>)
    ensures wire.Some? <==> relay && Fresh(seen, raw, now) && Decoded(raw).value.ttl > 1
  {
    if relay && Fresh(seen, raw, now) && Decoded(raw).value.ttl > 1
    then Some(Wire(Relayed(Decoded(raw).value)))
    else None
  }

  // The text displayed.
  ghost function Shown(key: seq<byte>, seen: Cache, raw: seq<byte>, now: int): Option<seq<byte>>
    requires |key| == 32
  {
    if Fresh(seen, raw, now) && Decoded(raw).value.flags & FLAG_ENCRYPTED != 0
    then Decrypt(key, Decoded(raw).value.payload) else None
  }

  ghost function AfterReceive(v: View, relay: bool, raw: seq<byte>, sourceFd: int, now: int, addTime: int): View
    requires Valid(v.seen)
  {
    var v' := v.(seen := CacheAfter(v.seen, raw, now, addTime));
    if !Fresh(v.seen, raw, now) then v'.(dropped := v.dropped + 1)
    else
      match Forwarded(v.seen, relay, raw, now)
      case None => v'.(received := v.received + 1)
      case Some(wire) =>
        v'.(received := v.received + 1, peers := FanOut(v.peers, wire, sourceFd), relayed := v.relayed + 1)
  }

  ghost function Answer(v: View, relay: bool, raw: seq<byte>, sourceFd: int, now: int): int
  {
    match Forwarded(v.seen, relay, raw, now)
    case None => if Decoded(raw).None? then -1 else 0
    case Some(wire) => SentCount(v.peers, wire, sourceFd)
  }

  function AfterRelay(v: View, p: Packet, sourceFd: int): View
  {
    if p.ttl <= 1 then v
    else v.(peers := FanOut(v.peers, Wire(Relayed(p)), sourceFd), relayed := v.relayed + 1)
  }

  function RelayAnswer(ps: seq<Peer>, p: Packet, sourceFd: int): int
  {
    if p.ttl <= 1 then 0 else SentCount(ps, Wire(Relayed(p)), sourceFd)
  }

  // ---- facts about one node ----

  /** A packet a node sent or accepted is dropped when it comes again within sixty seconds, whatever its TTL. */
  lemma EchoDropped(seen: Cache, p: Packet, raw: seq<byte>, now: int, later: int)
    requires Valid(seen) && now <= later <= now + TTL_SEC
    requires Decoded(raw).Some? && Decoded(raw).value.id == p.id
    ensures !Fresh(Added(seen, p.id, now), raw, later)
  {
    AddKeeps(seen, p.id, p.id, now, later);
  }

  /** A frame makes a node write to a peer only if it relays, the packet is new and its TTL above one, and the
      peer is active and not the source. A peer that takes everything then gets the packet with TTL one lower. */
  lemma WritesIff(v: View, relay: bool, raw: seq<byte>, sourceFd: int, now: int, addTime: int, i: nat)
    requires Valid(v.seen) && i < |v.peers|
    ensures var p, p' := v.peers[i], AfterReceive(v, relay, raw, sourceFd, now, addTime).peers[i];
      var due := relay && Fresh(v.seen, raw, now) && Decoded(raw).value.ttl > 1 && p.active && p.fd != sourceFd;
      && (p'.out != p.out ==> due)
      && (p.accepts == [] && p.fd >= 0 ==> (p'.out != p.out <==> due))
      && (p.accepts == [] && p.fd >= 0 && due ==>
        p'.out == p.out + Frame(Wire(Decoded(raw).value.(ttl := Decoded(raw).value.ttl - 1))))
  {
    hide Fresh, Decoded, Wire, CacheAfter, SentTo, Frame;
    match Forwarded(v.seen, relay, raw, now)
    case None =>
    case Some(wire) =>
      SentToCarries(v.peers[i], wire);
      FrameNotEmpty(wire);
  }

  /** Every frame is counted once, as received or as dropped, and as relayed exactly when it is passed on. */
  lemma CountersMove(v: View, relay: bool, raw: seq<byte>, sourceFd: int, now: int, addTime: int)
    requires Valid(v.seen)
    ensures var v' := AfterReceive(v, relay, raw, sourceFd, now, addTime);
      && v'.received + v'.dropped == v.received + v.dropped + 1 && v'.sent == v.sent
      && (v'.received == v.received + 1 <==> Fresh(v.seen, raw, now))
      && (v'.relayed == v.relayed + 1 <==> relay && Fresh(v.seen, raw, now) && raw[9] > 1)
      && v.relayed <= v'.relayed <= v.relayed + 1
  {
    hide Wire, CacheAfter, FanOut, Seen;
  }

  /** A text is shown exactly for a new packet whose lowest flag bit is set and whose payload decrypts to it. */
  lemma ShownIff(key: seq<byte>, seen: Cache, raw: seq<byte>, now: int, text: seq<byte>)
    requires |key| == 32
    ensures Shown(key, seen, raw, now) == Some(text) <==>
      && Fresh(seen, raw, now) && Decoded(raw).value.flags as int % 2 == 1
      && Decrypt(key, Decoded(raw).value.payload) == Some(text)
  {
    hide Decrypt, Seen, Decoded;
    if Fresh(seen, raw, now) {
      LowFlag(Decoded(raw).value.flags);
    }
  }

  lemma LowFlag(f: byte)
    ensures f & FLAG_ENCRYPTED != 0 <==> f as int % 2 == 1
  {
  }

  lemma FrameNotEmpty(d: seq<byte>)
    ensures Frame(d) != []
  {
  }

  /** The text shown for an origin's frame is its message. */
  lemma ShownIsMessage(key: seq<byte>, ttl: byte, ttl': byte, message: seq<byte>, nonce: seq<byte>,
      idNonce: seq<byte>, seen: Cache, now: int)
    requires |key| == 32 && |nonce| == 24 && |idNonce| == 8 && ShortEnough(message)
    requires Fresh(seen, Wire(Origin(key, ttl, message, nonce, idNonce).(ttl := ttl')), now)
    ensures Shown(key, seen, Wire(Origin(key, ttl, message, nonce, idNonce).(ttl := ttl')), now) == Some(message)
  {
    hide Encrypt, Decrypt, Sha512.Sha512, IdOf, Fresh;
    var p := Origin(key, ttl, message, nonce, idNonce).(ttl := ttl');
    DecryptEncrypt(key, nonce, message);
    DecodeWire(p);
    assert (FLAG_ENCRYPTED | FLAG_BROADCAST) & FLAG_ENCRYPTED != 0;
  }

  // The app hashes another spelling of the service name.
  lemma NamesDiffer()
    ensures Ascii(SERVICE_UUID) != Ascii(APP_SERVICE)
  {
    assert Ascii(SERVICE_UUID)[4] == 'v' as byte && Ascii(APP_SERVICE)[4] == 'V' as byte;
  }
}
