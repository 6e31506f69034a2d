/** The node object of mesh.c. Random bytes and the clock are inputs; what is printed is an output. */
module Mesh {
  import opened Bits
  import opened Options
  import opened Broadcast
  import opened SeenSpec
  import SeenCache
  import opened PacketCodec
  import opened Transport
  import opened MeshSpec
  import Sha512

  class Node {
    const meshKey: seq<byte>
    const seen: SeenCache.SeenCache
    const peers: array<Peer>
    var defaultTtl: byte
    var relayEnabled: bool
    var packetsSent: nat
    var packetsReceived: nat
    var packetsRelayed: nat
    var packetsDropped: nat

    ghost predicate Ready()
      reads this, seen, seen.entries
    {
      |meshKey| == 32 && peers.Length == MAX_PEERS && seen.Ready() && (peers as object) != seen.entries as object
    }

    ghost function Now(): (v: View)
      reads this, seen, seen.entries, peers
    {
      View(seen.State(), peers[..], packetsSent, packetsReceived, packetsRelayed, packetsDropped)
    }

    /** vex_mesh_init, without keys, name and files */
    constructor ()
      ensures Ready() && fresh(seen) && fresh(seen.entries) && fresh(peers)
      ensures Now().seen == Empty() && defaultTtl == DEFAULT_TTL && relayEnabled && meshKey == KeyFrom(SERVICE_UUID)
      ensures forall i :: 0 <= i < MAX_PEERS ==> !peers[i].active
    {
      hide Sha512.Sha512;
      defaultTtl, relayEnabled := DEFAULT_TTL, true;
      packetsSent, packetsReceived, packetsRelayed, packetsDropped := 0, 0, 0, 0;
      var cache := new SeenCache.SeenCache();
      seen := cache;
      peers := new Peer[32](i => Peer(0, false, 0, [], [], Pipe([], [])));
      var hash := new byte[64];
      Sha512.CryptoHash(hash, Ascii(SERVICE_UUID));
      assert hash[..][..32] == hash[..32];
      meshKey := hash[..32];
    }

    /** vex_mesh_send. The message is a C string, without its terminator. */
    method Send(message: seq<byte>, nonce: seq<byte>, idNonce: seq<byte>, now: int) returns (r: int)
      requires Ready() && |nonce| == 24 && |idNonce| == 8
      modifies this`packetsSent, seen, seen.entries, peers
      ensures Ready() && (r == -1 <==> !ShortEnough(message))
      ensures !ShortEnough(message) ==> Now() == old(Now())
      ensures ShortEnough(message) ==>
        var p := Origin(meshKey, defaultTtl, message, nonce, idNonce);
        Now() == AfterSend(old(Now()), p, now) && r == SentCount(old(peers[..]), Wire(p), -1)
    {
      hide Encrypt, Sha512.Sha512, IdOf, Added, FanOut, SentCount, SeenSpec.Valid, Wire, SentTo, Decoded;
      if |message| > MAX_PAYLOAD - 100 { return -1; }
      ghost var p := Origin(meshKey, defaultTtl, message, nonce, idNonce);
      var encrypted := new byte[501];
      var v, encryptedLen := EncryptBroadcast(meshKey, nonce, message, encrypted);
      if v != 0 { return -1; }
      var id := MakeId(encrypted[..encryptedLen], idNonce);
      var pkt := OriginRecord(defaultTtl, encrypted[..encryptedLen], id);
      assert pkt.Value() == p;
      seen.Add(id, now);
      var wire := new byte[512];
      var wireLen := pkt.Encode(wire, 512);
      if wireLen < 0 { return -1; }
      r := SendToAll(peers, wire[..wireLen], -1);
      packetsSent := packetsSent + 1;
    }

    /** vex_mesh_receive. The clock is read once by the check and once by the add. */
    method Receive(raw: seq<byte>, sourceFd: int, now: int, addTime: int) returns (r: int, shown: Option<seq<byte>>)
      requires Ready()
      modifies this`packetsReceived, this`packetsRelayed, this`packetsDropped, seen, seen.entries, peers
      ensures Ready()
      ensures Now() == AfterReceive(old(Now()), relayEnabled, raw, sourceFd, now, addTime)
      ensures r == Answer(old(Now()), relayEnabled, raw, sourceFd, now)
      ensures shown == Shown(meshKey, old(Now()).seen, raw, now)
    {
      hide Decrypt, Added, Checked, Seen, FanOut, SentCount, SeenSpec.Valid;
      shown := None;
      var pkt := new PacketRecord();
      var v := pkt.Decode(raw);
      if v != 0 {
        packetsDropped := packetsDropped + 1;
        return -1, None;
      }
      // The source tests the version once more here; decoding has already refused every other.
      assert pkt.version == VERSION;
      ghost var p := pkt.Value();
      var dup := seen.Check(pkt.packetId[..], now);
      if dup {
        packetsDropped := packetsDropped + 1;
        return 0, None;
      }
      seen.Add(pkt.packetId[..], addTime);
      packetsReceived := packetsReceived + 1;
      if pkt.flags & FLAG_ENCRYPTED != 0 {
        var plaintext := new byte[501];
        var ok, plainLen := DecryptBroadcast(meshKey, pkt.payload[..pkt.payloadLen], plaintext);
        if ok == 0 {
          shown := Some(plaintext[..plainLen]);
        }
      }
      if relayEnabled {
        r := Relay(raw, sourceFd);
        return;
      }
      r := 0;
    }

    /** vex_mesh_relay */
    method Relay(raw: seq<byte>, sourceFd: int) returns (r: int)
      requires Ready()
      modifies this`packetsRelayed, peers
      ensures Decoded(raw).None? ==> Now() == old(Now()) && r == -1
      ensures Decoded(raw).Some? ==> Now() == AfterRelay(old(Now()), Decoded(raw).value, sourceFd)
      ensures Decoded(raw).Some? ==> r == RelayAnswer(old(peers[..]), Decoded(raw).value, sourceFd)
    {
      hide Decoded, FanOut, SentCount, SeenSpec.Valid, Wire, Relayed, Sendable, SentTo, Decrypt,
        Sha512.Sha512;
      var v, ttl, wire := HopWire(raw);
      if v != 0 { return -1; }
      if ttl <= 1 { return 0; }
      r := SendToAll(peers, wire, sourceFd);
      packetsRelayed := packetsRelayed + 1;
    }
  }

  // The first part of vex_mesh_relay: the frame decoded and, with TTL to spare, encoded with one hop less.
  method HopWire(raw: seq<byte>) returns (v: int, ttl: byte, wire: seq<byte>)
    ensures v == (if Decoded(raw).Some? then 0 else -1)
    ensures v == 0 ==> ttl == Decoded(raw).value.ttl
    ensures v == 0 && ttl > 1 ==> wire == Wire(Relayed(Decoded(raw).value))
  {
    hide Wire, Decoded;
    ttl, wire := 0, [];
    var pkt := new PacketRecord();
    v := pkt.Decode(raw);
    if v != 0 { return; }
    ghost var p := pkt.Value();
    ttl := pkt.ttl;
    if ttl <= 1 { return; }
    pkt.ttl := pkt.ttl - 1;
    assert pkt.Value() == Relayed(p);
    var buf := new byte[512];
    var wireLen := pkt.Encode(buf, 512);
    wire := buf[..wireLen];
  }

  // The middle of vex_mesh_send: the packet before it is encoded.
  method OriginRecord(ttl: byte, encrypted: seq<byte>, id: seq<byte>) returns (pkt: PacketRecord)
    requires |encrypted| <= MAX_PAYLOAD && |id| == 8
    ensures fresh(pkt) && fresh(pkt.packetId) && fresh(pkt.payload) && pkt.Ready() && pkt.payloadLen <= MAX_PAYLOAD
    ensures pkt.Value() == Packet(VERSION, id, ttl, FLAG_ENCRYPTED | FLAG_BROADCAST, encrypted)
  {
    pkt := new PacketRecord();
    pkt.version := VERSION;
    pkt.ttl := ttl;
    pkt.flags := FLAG_ENCRYPTED | FLAG_BROADCAST;
    pkt.payloadLen := |encrypted|;
    CopyInto(pkt.payload, 0, encrypted);
    assert pkt.payload[..|encrypted|] == encrypted;
    CopyInto(pkt.packetId, 0, id);
    assert pkt.packetId[..] == id;
  }
}
