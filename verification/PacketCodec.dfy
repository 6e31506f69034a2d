/** The packet codec of packet.c and its counterpart in app/App.tsx. */
module PacketCodec {
  import opened Bits
  import opened Options
  import opened Broadcast
  import Sha512

  const VERSION: byte := 1
  const MAX_PACKET: nat := 512
  const HEADER_SIZE: nat := 11

  datatype Packet = Packet(version: byte, id: seq<byte>, ttl: byte, flags: byte, payload: seq<byte>)

  // What a vex_packet_t can hold and vex_packet_encode accepts.
  predicate Sendable(p: Packet)
  {
    p.version == VERSION && |p.id| == 8 && |p.payload| <= MAX_PAYLOAD
  }

  function Wire(p: Packet): seq<byte>
  {
    [p.version] + p.id + [p.ttl, p.flags] + p.payload
  }

  // The payload length as the sixteen bits that vex_packet_decode keeps of it.
  function PayloadLen(n: nat): nat
    requires HEADER_SIZE <= n
  {
    (n - HEADER_SIZE) % 0x1_0000
  }

  function Decoded(raw: seq<byte>): (p: Option<Packet>)
    ensures p.Some? ==> Sendable(p.value)
  {
    if |raw| < HEADER_SIZE || raw[0] != VERSION || PayloadLen(|raw|) > MAX_PAYLOAD then None
    else Some(Packet(raw[0], raw[1..9], raw[9], raw[10], raw[11..11 + PayloadLen(|raw|)]))
  }

  /** A vex_packet_t: decoding assigns its fields, encoding reads them. */
  class PacketRecord {
    var version: byte
    const packetId: array<byte>
    var ttl: byte
    var flags: byte
    const payload: array<byte>
    var payloadLen: nat

    ghost predicate Ready()
    {
      packetId.Length == 8 && payload.Length == MAX_PAYLOAD && packetId != payload
    }

    ghost function Value(): (p: Packet)
      requires Ready() && payloadLen <= MAX_PAYLOAD
      reads this, packetId, payload
    {
      Packet(version, packetId[..], ttl, flags, payload[..payloadLen])
    }

    constructor ()
      ensures Ready() && fresh(packetId) && fresh(payload) && payloadLen == 0
    {
      packetId, payload := new byte[8], new byte[501];
      payloadLen := 0;
    }

    /** vex_packet_encode */
    method Encode(buf: array<byte>, bufLen: nat) returns (r: int)
      requires Ready() && buf != packetId && buf != payload && bufLen <= buf.Length
      modifies buf
      ensures r == (if payloadLen + 11 > bufLen || payloadLen > MAX_PAYLOAD || version != VERSION
                    then -1 else payloadLen + 11)
      ensures r != -1 ==> buf[..r] == Wire(Value()) && buf[r..] == old(buf[r..])
      ensures r == -1 ==> buf[..] == old(buf[..])
    {
      hide Decoded, PayloadLen;
      var total := HEADER_SIZE + payloadLen;
      if total > bufLen || total > MAX_PACKET { return -1; }
      if version != VERSION { return -1; }
      ghost var head, rest := [version] + packetId[..] + [ttl, flags], buf[total..];
      WriteHeader(buf);
      assert buf[..11] == head && buf[11..][payloadLen..] == rest;
      if payloadLen > 0 {
        CopyInto(buf, HEADER_SIZE, payload[..payloadLen]);
      }
      assert buf[..total] == head + payload[..payloadLen];
      r := total;
    }

    // The eleven header bytes.
    method WriteHeader(buf: array<byte>)
      requires Ready() && buf != packetId && buf != payload && 11 <= buf.Length
      modifies buf
      ensures buf[..11] == [version] + packetId[..] + [ttl, flags] && buf[11..] == old(buf[11..])
    {
      buf[0] := version;
      CopyInto(buf, 1, packetId[..]);
      buf[9] := ttl;
      buf[10] := flags;
    }

    /** vex_packet_decode. On a failure some fields may already hold what was read. */
    method Decode(buf: seq<byte>) returns (r: int)
      requires Ready()
      modifies this, packetId, payload
      ensures r == (if Decoded(buf).Some? then 0 else -1)
      ensures r == 0 ==> payloadLen <= MAX_PAYLOAD && Some(Value()) == Decoded(buf)
    {
      if |buf| < HEADER_SIZE { return -1; }
      version := buf[0];
      if version != VERSION { return -1; }
      CopyInto(packetId, 0, buf[1..9]);
      assert packetId[..] == packetId[..0] + buf[1..9] + packetId[8..];
      ttl := buf[9];
      flags := buf[10];
      payloadLen := (|buf| - HEADER_SIZE) % 0x1_0000;
      if payloadLen > MAX_PAYLOAD { return -1; }
      if payloadLen > 0 {
        CopyInto(payload, 0, buf[HEADER_SIZE..HEADER_SIZE + payloadLen]);
      }
      assert payload[..payloadLen] == buf[11..11 + payloadLen];
      assert packetId[..] == buf[1..9];
      assert payloadLen == PayloadLen(|buf|);
      r := 0;
    }
  }

  // ---- round trips ----

  lemma WireParts(p: Packet)
    requires |p.id| == 8
    ensures |Wire(p)| == 11 + |p.payload|
    ensures Wire(p)[0] == p.version && Wire(p)[1..9] == p.id && Wire(p)[9] == p.ttl && Wire(p)[10] == p.flags
    ensures Wire(p)[11..] == p.payload
  {
    var w := Wire(p);
    assert w == [p.version] + (p.id + ([p.ttl, p.flags] + p.payload));
    assert w[1..] == p.id + ([p.ttl, p.flags] + p.payload);
    assert w[9..] == [p.ttl, p.flags] + p.payload;
    assert w[1..9] == w[1..][..8] && w[9] == w[9..][0] && w[10] == w[9..][1];
  }

  /** What was encoded decodes to itself. */
  lemma DecodeWire(p: Packet)
    requires Sendable(p)
    ensures |Wire(p)| <= MAX_PACKET && Decoded(Wire(p)) == Some(p)
  {
    WireParts(p);
    SmallLen(|Wire(p)|);
    assert Wire(p)[11..11 + |p.payload|] == Wire(p)[11..];
  }

  /** An accepted frame is the encoding of what it decodes to exactly when it is no longer than a packet. */
  lemma WireDecode(raw: seq<byte>)
    requires Decoded(raw).Some?
    ensures Wire(Decoded(raw).value) == raw <==> |raw| <= MAX_PACKET
  {
    var p := Decoded(raw).value;
    WireParts(p);
    if |raw| <= MAX_PACKET {
      SmallLen(|raw|);
      assert raw == raw[..1] + raw[1..9] + raw[9..11] + raw[11..];
      assert raw[9..11] == [p.ttl, p.flags];
    }
  }

  lemma SmallLen(n: nat)
    requires HEADER_SIZE <= n < HEADER_SIZE + 0x1_0000
    ensures PayloadLen(n) == n - HEADER_SIZE
  {
  }

  lemma WrappedLen(k: nat)
    requires k < 0x1_0000
    ensures PayloadLen(HEADER_SIZE + 0x1_0000 + k) == k
  {
    assert (0x1_0000 + k) % 0x1_0000 == k;
  }

  /** A frame 65536 bytes too long is accepted for its first part: the length check sees sixteen bits only. */
  lemma LongFrameAccepted(p: Packet, extra: seq<byte>)
    requires Sendable(p) && |extra| == 0x1_0000
    ensures Decoded(Wire(p) + extra) == Some(p) && Wire(p) != Wire(p) + extra
  {
    WireParts(p);
    WrappedLen(|p.payload|);
    var w := Wire(p) + extra;
    assert w[1..9] == Wire(p)[1..9] && w[9] == Wire(p)[9] && w[10] == Wire(p)[10];
    assert w[11..11 + |p.payload|] == Wire(p)[11..];
  }

  // ---- the app's packets ----

  datatype ParsedPacket = ParsedPacket(version: byte, packetId: string, ttl: byte, flags: byte, payload: seq<byte>,
      raw: seq<byte>)

  const HEX: string := "0123456789abcdef"

  function BytesToHex(s: seq<byte>): (h: string)
    ensures |h| == 2 * |s|
  {
    if s == [] then "" else [HEX[s[0] as int / 16], HEX[s[0] as int % 16]] + BytesToHex(s[1..])
  }

  function HexDigit(c: char): (d: nat)
    ensures d < 16
  {
    if '0' <= c <= '9' then c as int - '0' as int
    else if 'a' <= c <= 'f' then c as int - 'a' as int + 10
    else 0
  }

  function HexToBytes(h: string): seq<byte>
  {
    if |h| < 2 then [] else [(16 * HexDigit(h[0]) + HexDigit(h[1])) as byte] + HexToBytes(h[2..])
  }

  function ParsePacket(data: seq<byte>): Option<ParsedPacket>
  {
    if |data| < 11 then None
    else Some(ParsedPacket(data[0], BytesToHex(data[1..9]), data[9], data[10], data[11..], data))
  }

  function RebuildWithNewTtl(p: ParsedPacket, newTtl: byte): seq<byte>
    requires |p.raw| > 9
  {
    p.raw[9 := newTtl]
  }

  method BuildPacket(version: byte, packetId: seq<byte>, ttl: byte, flags: byte, payload: seq<byte>)
    returns (packet: array<byte>)
    requires |packetId| == 8
    ensures fresh(packet) && packet[..] == Wire(Packet(version, packetId, ttl, flags, payload))
  {
    packet := new byte[11 + |payload|];
    packet[0] := version;
    CopyInto(packet, 1, packetId);
    packet[9] := ttl;
    packet[10] := flags;
    assert packet[..11] == [version] + packetId + [ttl, flags];
    CopyInto(packet, 11, payload);
    assert packet[..] == packet[..11] + packet[11..11 + |payload|];
    assert Wire(Packet(version, packetId, ttl, flags, payload)) == [version] + packetId + [ttl, flags] + payload;
  }

  lemma HexDigitOf(d: nat)
    requires d < 16
    ensures HexDigit(HEX[d]) == d
  {
    assert HEX == "0123456789" + "abcdef";
    if d < 10 {
      assert HEX[d] == "0123456789"[d];
    } else {
      assert HEX[d] == "abcdef"[d - 10];
    }
  }

  lemma HexByte(b: byte)
    ensures (16 * HexDigit(HEX[b as int / 16]) + HexDigit(HEX[b as int % 16])) as byte == b
  {
    var n := b as int;
    HexDigitOf(n / 16);
    HexDigitOf(n % 16);
    assert 16 * (n / 16) + n % 16 == n;
  }

  /** The app's cache is keyed by the hexadecimal form of an id, from which the id can be read back. */
  lemma {:induction false} HexRoundTrip(s: seq<byte>)
    ensures HexToBytes(BytesToHex(s)) == s
  {
    if s != [] {
      hide HEX, HexDigit;
      HexByte(s[0]);
      HexRoundTrip(s[1..]);
      assert BytesToHex(s)[2..] == BytesToHex(s[1..]);
      assert s == [s[0]] + s[1..];
    }
  }

  lemma HexInjective(s: seq<byte>, t: seq<byte>)
    ensures BytesToHex(s) == BytesToHex(t) <==> s == t
  {
    HexRoundTrip(s);
    HexRoundTrip(t);
  }

  /** On frames no longer than a packet, both parsers accept the same ones of this version and read the same fields. */
  lemma SameParse(raw: seq<byte>)
    requires |raw| <= MAX_PACKET
    ensures var c, a := Decoded(raw), ParsePacket(raw);
      && (c.Some? <==> a.Some? && a.value.version == VERSION)
      && (c.Some? ==>
            var p := c.value;
            a.value == ParsedPacket(p.version, BytesToHex(p.id), p.ttl, p.flags, p.payload, raw))
  {
    if |raw| >= HEADER_SIZE {
      SmallLen(|raw|);
    }
  }

  // The packet a relay sends on.
  function Relayed(p: Packet): Packet
  {
    p.(ttl := p.ttl - 1)
  }

  lemma OneHopLess(p: Packet)
    requires p.ttl > 0
    ensures Relayed(p).ttl as int == p.ttl as int - 1
  {
  }

  /** Decoding, decrementing and encoding in C is the app's patch of byte 9. */
  lemma RelayIsPatch(raw: seq<byte>)
    requires |raw| <= MAX_PACKET && Decoded(raw).Some? && Decoded(raw).value.ttl > 1
    ensures var p := Decoded(raw).value;
      && Wire(Relayed(p)) == RebuildWithNewTtl(ParsePacket(raw).value, ParsePacket(raw).value.ttl - 1)
      && Decoded(Wire(Relayed(p))) == Some(Relayed(p))
  {
    var p := Decoded(raw).value;
    WireDecode(raw);
    WireParts(p);
    WireParts(Relayed(p));
    DecodeWire(Relayed(p));
    assert Wire(Relayed(p)) == raw[9 := p.ttl - 1];
  }

  // ---- identifiers ----

  /** vex_packet_make_id: the nonce is the random input. */
  method MakeId(payload: seq<byte>, nonce: seq<byte>) returns (id: seq<byte>)
    requires |payload| <= MAX_PAYLOAD && |nonce| == 8
    ensures id == IdOf(payload, nonce)
  {
    hide Sha512.Sha512;
    var hashOutput := new byte[64];
    Sha512.CryptoHash(hashOutput, payload + nonce);
    id := hashOutput[..8];
    assert id == hashOutput[..][..8];
  }

  function IdOf(payload: seq<byte>, nonce: seq<byte>): (id: seq<byte>)
    ensures |id| == 8
  {
    Sha512.Sha512(payload + nonce)[..8]
  }
}
