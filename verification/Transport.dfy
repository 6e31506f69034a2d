/** Length-prefixed framing and fan-out of transport_unix.c. The kernel's side of a connection is
    a byte sequence each way and the numbers its reads and writes will answer with. */
module Transport {
  import opened Bits
  import opened Options

  const MAX_PEERS: nat := 32
  const MAX_FRAME: nat := 512

  // Bytes under way to a reader, and at most how many each of its reads gets: 0 means that the
  // other end closed, -1 that nothing has arrived yet, less than -1 an error.
  datatype Pipe = Pipe(bytes: seq<byte>, grants: seq<int>)

  // A peer slot with its connection: what the kernel took to send, and how much of each write it takes
  // (all, when nothing is said; less than 0 is an error).
  datatype Peer = Peer(fd: int, active: bool, lastSeen: int, out: seq<byte>, accepts: seq<int>, inbox: Pipe)

  // ---- sending ----

  function Header(n: nat): seq<byte>
  {
    [(n / 256 % 256) as byte, (n % 256) as byte]
  }

  function Frame(data: seq<byte>): seq<byte>
  {
    Header(|data|) + data
  }

  function Frames(ps: seq<seq<byte>>): seq<byte>
  {
    if ps == [] then [] else Frame(ps[0]) + Frames(ps[1..])
  }

  // What write returns for n bytes.
  function Taken(p: Peer, n: nat): (k: int)
    ensures k <= n
  {
    if p.accepts == [] || p.accepts[0] > n then n else p.accepts[0]
  }

  function Written(p: Peer, data: seq<byte>): Peer
  {
    var k := Taken(p, |data|);
    p.(out := p.out + (if k < 0 then [] else data[..k]), accepts := if p.accepts == [] then [] else p.accepts[1..])
  }

  // Both writes go through whole.
  predicate Accepts(p: Peer, data: seq<byte>)
  {
    p.active && p.fd >= 0 && Taken(p, 2) == 2 && Taken(Written(p, Header(|data|)), |data|) == |data|
  }

  function SentTo(p: Peer, data: seq<byte>): Peer
  {
    if !p.active || p.fd < 0 then p
    else
      var q := Written(p, Header(|data|));
      if Taken(p, 2) != 2 then q.(active := false)
      else
        var r := Written(q, data);
        if Taken(q, |data|) != |data| then r.(active := false) else r
  }

  predicate Chosen(p: Peer, exceptFd: int) { p.active && p.fd != exceptFd }

  function FanOut(ps: seq<Peer>, data: seq<byte>, exceptFd: int): (qs: seq<Peer>)
    ensures |qs| == |ps|
  {
    seq(|ps|, i requires 0 <= i < |ps| => if Chosen(ps[i], exceptFd) then SentTo(ps[i], data) else ps[i])
  }

  function SentCount(ps: seq<Peer>, data: seq<byte>, exceptFd: int): (n: nat)
    ensures n <= |ps|
  {
    if ps == [] then 0
    else
      var p := ps[|ps| - 1];
      SentCount(ps[..|ps| - 1], data, exceptFd) + if Chosen(p, exceptFd) && Accepts(p, data) then 1 else 0
  }

  method Write(peers: array<Peer>, i: nat, data: seq<byte>) returns (n: int)
    requires i < peers.Length
    modifies peers
    ensures n == Taken(old(peers[i]), |data|)
    ensures peers[..] == old(peers[..])[i := Written(old(peers[i]), data)]
  {
    var p := peers[i];
    n := Taken(p, |data|);
    peers[i] := p.(out := p.out + (if n < 0 then [] else data[..n]),
                   accepts := if p.accepts == [] then [] else p.accepts[1..]);
  }

  /** vex_transport_send_to_peer */
  method SendToPeer(peers: array<Peer>, i: nat, data: seq<byte>) returns (r: int)
    requires i < peers.Length
    modifies peers
    ensures r == if Accepts(old(peers[i]), data) then 0 else -1
    ensures peers[..] == old(peers[..])[i := SentTo(old(peers[i]), data)]
  {
    if !peers[i].active || peers[i].fd < 0 { return -1; }
    var header := [(|data| / 256 % 256) as byte, (|data| % 256) as byte];
    var n := Write(peers, i, header);
    if n != 2 {
      peers[i] := peers[i].(active := false);
      return -1;
    }
    n := Write(peers, i, data);
    if n != |data| {
      peers[i] := peers[i].(active := false);
      return -1;
    }
    r := 0;
  }

  /** vex_transport_send_to_all */
  method SendToAll(peers: array<Peer>, data: seq<byte>, exceptFd: int) returns (sent: nat)
    requires peers.Length == MAX_PEERS
    modifies peers
    ensures peers[..] == FanOut(old(peers[..]), data, exceptFd)
    ensures sent == SentCount(old(peers[..]), data, exceptFd)
  {
    ghost var ps := peers[..];
    sent := 0;
    var i := 0;
    while i < MAX_PEERS
      invariant 0 <= i <= MAX_PEERS
      invariant peers[..i] == FanOut(ps, data, exceptFd)[..i] && peers[i..] == ps[i..]
      invariant sent == SentCount(ps[..i], data, exceptFd)
    {
      hide Accepts, SentTo;
      assert ps[..i + 1][..i] == ps[..i] && peers[i] == peers[i..][0] == ps[i];
      ghost var before := peers[..];
      if peers[i].active && peers[i].fd != exceptFd {
        var r := SendToPeer(peers, i, data);
        if r == 0 {
          sent := sent + 1;
        }
      }
      assert peers[..i] == before[..i] && peers[i + 1..] == before[i + 1..] == ps[i..][1..];
      assert peers[..i + 1] == peers[..i] + [peers[i]];
      i := i + 1;
    }
    assert ps[..MAX_PEERS] == ps;
  }

  // ---- what a connection carries ----

  function SentAll(p: Peer, ds: seq<seq<byte>>): Peer
  {
    if ds == [] then p else SentTo(SentAll(p, ds[..|ds| - 1]), ds[|ds| - 1])
  }

  lemma {:induction false} FramesAppend(ps: seq<seq<byte>>, d: seq<byte>)
    ensures Frames(ps + [d]) == Frames(ps) + Frame(d)
  {
    if ps == [] {
      assert ps + [d] == [d];
      assert Frames([d][1..]) == [];
    } else {
      FramesAppend(ps[1..], d);
      assert (ps + [d])[1..] == ps[1..] + [d];
    }
  }

  // k bytes of the frame are not all of it. (An empty packet can fail after its header.)
  predicate FallsShort(d: seq<byte>, k: int)
  {
    0 <= k <= |Frame(d)| && (d != [] ==> k < |Frame(d)|)
  }

  lemma SentToCarries(p: Peer, d: seq<byte>)
    ensures Accepts(p, d) ==> SentTo(p, d).active && SentTo(p, d).out == p.out + Frame(d)
    ensures p.active && p.fd >= 0 && !Accepts(p, d) ==>
      !SentTo(p, d).active && exists k :: FallsShort(d, k) && SentTo(p, d).out == p.out + Frame(d)[..k]
    ensures !p.active ==> SentTo(p, d) == p
    ensures SentTo(p, d).fd == p.fd
  {
    if p.active && p.fd >= 0 {
      var h := Header(|d|);
      var q := Written(p, h);
      var k, l := Taken(p, 2), Taken(q, |d|);
      if k == 2 {
        assert q.out + d == p.out + (h + d) && d[..|d|] == d && h[..2] == h;
        if 0 <= l < |d| {
          assert Frame(d)[..2 + l] == h + d[..l];
          assert FallsShort(d, 2 + l);
          assert SentTo(p, d).out == p.out + Frame(d)[..2 + l];
        } else if l < 0 {
          assert Frame(d)[..2] == h;
          assert FallsShort(d, 2);
          assert SentTo(p, d).out == p.out + Frame(d)[..2];
        }
      } else {
        var j := if k < 0 then 0 else k;
        assert Frame(d)[..j] == h[..j];
        assert FallsShort(d, j);
        assert SentTo(p, d).out == p.out + Frame(d)[..j];
      }
    }
  }

  /** As long as a peer stays active its stream is exactly the frames sent to it; once a write falls
      short it ends in the middle of a frame and nothing is ever added again. */
  lemma {:induction false} StreamIsFrames(p: Peer, ds: seq<seq<byte>>) returns (n: nat, k: nat)
    requires p.active && p.fd >= 0
    ensures SentAll(p, ds).fd == p.fd && n <= |ds|
    ensures SentAll(p, ds).active ==> n == |ds| && k == 0 && SentAll(p, ds).out == p.out + Frames(ds)
    ensures !SentAll(p, ds).active ==>
      (n < |ds| && FallsShort(ds[n], k) && SentAll(p, ds).out == p.out + Frames(ds[..n]) + Frame(ds[n])[..k])
  {
    hide SentTo, Frame, Accepts, SentAll, Frames;
    n, k := 0, 0;
    SentAllStep(p, ds);
    FramesNone();
    if ds == [] {
      assert p.out + [] == p.out;
    } else {
      var ds', d := ds[..|ds| - 1], ds[|ds| - 1];
      n, k := StreamIsFrames(p, ds');
      var q := SentAll(p, ds');
      SentToCarries(q, d);
      assert ds == ds' + [d];
      if q.active && Accepts(q, d) {
        n := |ds|;
        FramesAppend(ds', d);
        assert p.out + Frames(ds') + Frame(d) == p.out + (Frames(ds') + Frame(d));
      } else if q.active {
        n := |ds'|;
        k :| FallsShort(d, k) && SentTo(q, d).out == q.out + Frame(d)[..k];
      } else {
        assert ds'[..n] == ds[..n];
      }
    }
  }

  lemma FramesNone()
    ensures Frames([]) == []
  {
  }

  lemma SentAllStep(p: Peer, ds: seq<seq<byte>>)
    ensures ds == [] ==> SentAll(p, ds) == p
    ensures ds != [] ==> SentAll(p, ds) == SentTo(SentAll(p, ds[..|ds| - 1]), ds[|ds| - 1])
  {
  }

  /** A relay reaches every active peer but its source, and the source's stream does not change. */
  lemma FanOutReaches(ps: seq<Peer>, data: seq<byte>, exceptFd: int, i: nat)
    requires i < |ps|
    ensures Chosen(ps[i], exceptFd) && Accepts(ps[i], data) ==>
      FanOut(ps, data, exceptFd)[i].out == ps[i].out + Frame(data)
    ensures ps[i].fd == exceptFd || !ps[i].active ==> FanOut(ps, data, exceptFd)[i] == ps[i]
  {
    SentToCarries(ps[i], data);
  }

  // ---- receiving ----

  function ReadCount(p: Pipe, n: nat): (k: int)
    ensures k <= n && k <= |p.bytes|
  {
    if p.grants == [] then -1
    else if p.grants[0] <= 0 then p.grants[0]
    else if p.bytes == [] then -1
    else if p.grants[0] <= n && p.grants[0] <= |p.bytes| then p.grants[0]
    else if n <= |p.bytes| then n
    else |p.bytes|
  }

  function AfterRead(p: Pipe, n: nat): Pipe
  {
    var k := ReadCount(p, n);
    Pipe(if k < 0 then p.bytes else p.bytes[k..], if p.grants == [] then [] else p.grants[1..])
  }

  datatype Reading = Idle(pipe: Pipe) | Closed(pipe: Pipe) | Rejected(pipe: Pipe) | Got(data: seq<byte>, pipe: Pipe)

  // n more payload bytes, in as many reads as it takes.
  function Collect(p: Pipe, n: nat, got: seq<byte>): Reading
    decreases n
  {
    if n == 0 then Got(got, p)
    else
      var k := ReadCount(p, n);
      if k <= 0 then Closed(AfterRead(p, n)) else Collect(AfterRead(p, n), n - k, got + p.bytes[..k])
  }

  lemma {:induction false} CollectStep(p: Pipe, n: nat, got: seq<byte>)
    ensures Collect(p, n, got) ==
      if n == 0 then Got(got, p)
      else if ReadCount(p, n) <= 0 then Closed(AfterRead(p, n))
      else Collect(AfterRead(p, n), n - ReadCount(p, n), got + p.bytes[..ReadCount(p, n)])
  {
    hide ReadCount, AfterRead;
  }

  // ((uint16_t)h[0] << 8) | h[1]
  function LengthIn(h: seq<byte>): (n: nat)
    requires |h| == 2
  {
    256 * (h[0] as int) + h[1] as int
  }

  function ReadFrame(p: Pipe, bufLen: nat): Reading
  {
    var k, q := ReadCount(p, 2), AfterRead(p, 2);
    if k == 0 || k < -1 then Closed(q)
    else if k == -1 then Idle(q)
    else if k != 2 then Rejected(q)
    else
      var n := LengthIn(p.bytes[..2]);
      if n > bufLen || n > MAX_FRAME then Rejected(q) else Collect(q, n, [])
  }

  function PeerAfter(p: Peer, r: Reading, now: int): Peer
  {
    match r
    case Got(_, q) => p.(inbox := q, lastSeen := now)
    case Closed(q) => p.(inbox := q, active := false)
    case Idle(q) => p.(inbox := q)
    case Rejected(q) => p.(inbox := q)
  }

  /** A read closes a slot only when the reading says so, and touches nothing else but the stream and, for a
      packet, the time it was last heard of. */
  lemma SlotKept(p: Peer, r: Reading, now: int)
    ensures var q := PeerAfter(p, r, now);
      && (q.active <==> p.active && !r.Closed?) && q.fd == p.fd && q.out == p.out && q.accepts == p.accepts
      && q.inbox == r.pipe && q.lastSeen == (if r.Got? then now else p.lastSeen)
  {
  }

  // What one call makes of a peer slot: the packet read, if any, and the slot as it leaves it.
  function SlotRead(p: Peer, bufLen: nat, now: int): (r: (Option<seq<byte>>, Peer))
  {
    if !p.active then (None, p)
    else
      var f := ReadFrame(p.inbox, bufLen);
      (if f.Got? then Some(f.data) else None, PeerAfter(p, f, now))
  }

  method Read(peers: array<Peer>, i: nat, n: nat) returns (k: int, data: seq<byte>)
    requires i < peers.Length
    modifies peers
    ensures k == ReadCount(old(peers[i].inbox), n)
    ensures data == if k > 0 then old(peers[i].inbox.bytes)[..k] else []
    ensures peers[..] == old(peers[..])[i := old(peers[i]).(inbox := AfterRead(old(peers[i].inbox), n))]
  {
    var p := peers[i].inbox;
    k := ReadCount(p, n);
    data := if k > 0 then p.bytes[..k] else [];
    peers[i] := peers[i].(inbox := AfterRead(p, n));
  }

  // The payload loop of vex_transport_unix_read.
  method ReadPayload(peers: array<Peer>, i: nat, buf: array<byte>, pktLen: nat) returns (r: int)
    requires i < peers.Length && pktLen <= buf.Length && peers as object != buf as object
    modifies peers, buf
    ensures var p := old(peers[i]);
      match Collect(p.inbox, pktLen, [])
      case Got(data, q) => r == |data| == pktLen && buf[..r] == data && buf[r..] == old(buf[r..])
        && peers[..] == old(peers[..])[i := p.(inbox := q)]
      case f => r == -1 && f.Closed? && peers[..] == old(peers[..])[i := p.(inbox := f.pipe, active := false)]
  {
    hide ReadCount, AfterRead, Collect;
    ghost var p, ps := peers[i], peers[..];
    assert buf[..0] == [];
    ghost var f := Collect(p.inbox, pktLen, []);
    var total := 0;
    while total < pktLen
      invariant 0 <= total <= pktLen
      invariant peers[..] == ps[i := p.(inbox := peers[i].inbox)]
      invariant Collect(peers[i].inbox, pktLen - total, buf[..total]) == f
      invariant buf[total..] == old(buf[total..])
    {
      ghost var inbox := peers[i].inbox;
      CollectStep(inbox, pktLen - total, buf[..total]);
      var n, chunk := Read(peers, i, pktLen - total);
      if n <= 0 {
        peers[i] := peers[i].(active := false);
        return -1;
      }
      ghost var rest, got := buf[total..], buf[..total];
      CopyInto(buf, total, chunk);
      assert buf[total + n..] == rest[n..];
      assert buf[..total + n] == got + chunk;
      total := total + n;
    }
    CollectStep(peers[i].inbox, 0, buf[..pktLen]);
    r := pktLen;
  }

  /** vex_transport_unix_read */
  method UnixRead(peers: array<Peer>, i: nat, buf: array<byte>, bufLen: nat, now: int) returns (r: int)
    requires i < peers.Length && bufLen <= buf.Length && peers as object != buf as object
    modifies peers, buf
    ensures !old(peers[i].active) ==> r == -1 && peers[..] == old(peers[..]) && buf[..] == old(buf[..])
    ensures old(peers[i].active) ==>
      var f := ReadFrame(old(peers[i].inbox), bufLen);
      && peers[..] == old(peers[..])[i := PeerAfter(old(peers[i]), f, now)]
      && match f
         case Got(data, _) => r == |data| && 0 <= r <= bufLen && buf[..r] == data && buf[r..] == old(buf[r..])
         case Idle(_) => r == 0 && buf[..] == old(buf[..])
         case Closed(_) => r == -1
         case Rejected(_) => r == -1 && buf[..] == old(buf[..])
    ensures peers[..] == old(peers[..])[i := SlotRead(old(peers[i]), bufLen, now).1]
    ensures match SlotRead(old(peers[i]), bufLen, now).0
      case Some(data) => 0 <= r == |data| <= bufLen && buf[..r] == data
      case None => r <= 0
  {
    hide Collect, ReadCount, AfterRead, LengthIn;
    if !peers[i].active { return -1; }
    var n, header := Read(peers, i, 2);
    if n == 0 {
      peers[i] := peers[i].(active := false);
      return -1;
    }
    if n < 0 {
      if n == -1 { return 0; }
      peers[i] := peers[i].(active := false);
      return -1;
    }
    if n != 2 { return -1; }
    var pktLen := LengthIn(header);
    if pktLen > bufLen || pktLen > MAX_FRAME { return -1; }
    r := ReadPayload(peers, i, buf, pktLen);
    if r < 0 { return; }
    peers[i] := peers[i].(lastSeen := now);
  }

  // ---- framing round trip ----

  // The reads that payload of n bytes needs are each granted something.
  predicate PayloadComes(g: seq<int>, n: nat)
    decreases n
  {
    n == 0 || (g != [] && g[0] >= 1 && PayloadComes(g[1..], if g[0] < n then n - g[0] else 0))
  }

  // What is left of the grants then.
  function GrantsAfter(g: seq<int>, n: nat): seq<int>
    requires PayloadComes(g, n)
    decreases n
  {
    if n == 0 then g else GrantsAfter(g[1..], if g[0] < n then n - g[0] else 0)
  }

  // Every header comes whole, every payload in some pieces.
  predicate Comes(g: seq<int>, ps: seq<seq<byte>>)
    decreases |ps|
  {
    ps == [] || (g != [] && g[0] >= 2 && PayloadComes(g[1..], |ps[0]|) && Comes(GrantsAfter(g[1..], |ps[0]|), ps[1..]))
  }

  // The packets that successive calls at these times read from a slot, up to the first that reads none, each
  // from the slot that the one before left, and the slot in the end.
  function ReadMany(p: Peer, bufLen: nat, times: seq<int>): (r: (seq<seq<byte>>, Peer))
    decreases |times|
  {
    if times == [] then ([], p)
    else
      var (d, q) := SlotRead(p, bufLen, times[0]);
      match d
      case None => ([], q)
      case Some(data) => var rest := ReadMany(q, bufLen, times[1..]); ([data] + rest.0, rest.1)
  }

  // One read of a payload of which done bytes have come.
  lemma OneRead(d: seq<byte>, done: nat, rest: seq<byte>, g: seq<int>) returns (k: nat)
    requires done < |d| && g != [] && g[0] >= 1
    ensures var p := Pipe(d[done..] + rest, g);
      && k == ReadCount(p, |d| - done) == (if g[0] < |d| - done then g[0] else |d| - done) && 0 < k <= |d| - done
      && AfterRead(p, |d| - done) == Pipe(d[done + k..] + rest, g[1..])
      && d[..done] + p.bytes[..k] == d[..done + k]
  {
    var left := d[done..];
    var p := Pipe(left + rest, g);
    k := ReadCount(p, |d| - done);
    assert p.bytes[..k] == left[..k] == d[done..done + k];
    assert p.bytes[k..] == left[k..] + rest && left[k..] == d[done + k..];
    assert d[..done] + d[done..done + k] == d[..done + k];
  }

  lemma {:induction false} CollectAll(d: seq<byte>, done: nat, rest: seq<byte>, g: seq<int>)
    requires done <= |d| && PayloadComes(g, |d| - done)
    ensures Collect(Pipe(d[done..] + rest, g), |d| - done, d[..done]) == Got(d, Pipe(rest, GrantsAfter(g, |d| - done)))
    decreases |d| - done
  {
    hide ReadCount, AfterRead;
    if done == |d| {
      assert d[..done] == d && d[done..] + rest == rest;
    } else {
      var k := OneRead(d, done, rest, g);
      CollectAll(d, done + k, rest, g[1..]);
    }
  }

  lemma HeaderParts(n: nat)
    requires n < 0x1_0000
    ensures 0 <= n / 256 % 256 < 256 && 0 <= n % 256 < 256 && 256 * (n / 256 % 256) + n % 256 == n
  {
    var a := n / 256;
    assert a < 256 && a % 256 == a;
  }

  lemma HeaderTells(n: nat)
    requires n < 0x1_0000
    ensures LengthIn(Header(n)) == n
  {
    HeaderParts(n);
    var a, b := n / 256 % 256, n % 256;
    ByteOfInt(a);
    ByteOfInt(b);
    var h := [a as byte, b as byte];
    assert h == Header(n) && h[0] as int == a && h[1] as int == b;
  }

  // A header that comes whole.
  lemma HeaderRead(n: nat, tail: seq<byte>, g: seq<int>) returns (p: Pipe)
    requires n < 0x1_0000 && g != [] && g[0] >= 2
    ensures p == Pipe(Header(n) + tail, g)
    ensures ReadCount(p, 2) == 2 && AfterRead(p, 2) == Pipe(tail, g[1..]) && LengthIn(p.bytes[..2]) == n
  {
    hide LengthIn;
    p := Pipe(Header(n) + tail, g);
    HeaderTells(n);
    HeaderTwo(n);
    hide Header;
    assert p.bytes[..2] == Header(n) && p.bytes[2..] == tail;
  }

  lemma HeaderTwo(n: nat)
    ensures |Header(n)| == 2
  {
  }

  lemma FrameReadBack(d: seq<byte>, rest: seq<byte>, g: seq<int>, bufLen: nat)
    requires |d| <= MAX_FRAME <= bufLen
    requires g != [] && g[0] >= 2 && PayloadComes(g[1..], |d|)
    ensures ReadFrame(Pipe(Frame(d) + rest, g), bufLen) == Got(d, Pipe(rest, GrantsAfter(g[1..], |d|)))
  {
    hide LengthIn, Header, ReadCount, AfterRead, Collect, GrantsAfter, PayloadComes;
    var p := HeaderRead(|d|, d + rest, g);
    assert Frame(d) + rest == Header(|d|) + (d + rest);
    assert d + rest == d[0..] + rest && d[..0] == [];
    CollectAll(d, 0, rest, g[1..]);
  }

  lemma {:induction false} ReadManyStep(p: Peer, bufLen: nat, times: seq<int>)
    requires times != []
    ensures var (d, q) := SlotRead(p, bufLen, times[0]);
      ReadMany(p, bufLen, times) == match d
        case None => ([], q)
        case Some(data) =>
          ([data] + ReadMany(q, bufLen, times[1..]).0, ReadMany(q, bufLen, times[1..]).1)
  {
    hide SlotRead;
  }

  lemma SlotGets(p: Peer, d: seq<byte>, rest: seq<byte>, bufLen: nat, now: int)
    requires p.active && p.inbox.bytes == Frame(d) + rest && |d| <= MAX_FRAME <= bufLen
    requires var g := p.inbox.grants; g != [] && g[0] >= 2 && PayloadComes(g[1..], |d|)
    ensures SlotRead(p, bufLen, now)
         == (Some(d), p.(inbox := Pipe(rest, GrantsAfter(p.inbox.grants[1..], |d|)), lastSeen := now))
  {
    hide ReadFrame, Frame, PayloadComes, GrantsAfter;
    FrameReadBack(d, rest, p.inbox.grants, bufLen);
  }

  /** Any sequence of packets of at most 512 bytes is read back in order by calls on one slot, with nothing left
      over, however the payloads are split; the slot stays active. */
  lemma {:induction false} FramesReadBack(p: Peer, ps: seq<seq<byte>>, bufLen: nat, times: seq<int>)
    requires p.active && p.inbox.bytes == Frames(ps) && |times| == |ps|
    requires forall i :: 0 <= i < |ps| ==> |ps[i]| <= MAX_FRAME
    requires MAX_FRAME <= bufLen && Comes(p.inbox.grants, ps)
    ensures ReadMany(p, bufLen, times).0 == ps
    ensures var q := ReadMany(p, bufLen, times).1;
      && q.active && q.inbox.bytes == [] && q.fd == p.fd && q.out == p.out && q.accepts == p.accepts
      && q.lastSeen == if ps == [] then p.lastSeen else times[|times| - 1]
    decreases |ps|
  {
    hide SlotRead, Frame, Frames, PayloadComes, GrantsAfter, ReadMany;
    if ps == [] {
      FramesNone();
      ReadNone(p, bufLen);
    } else {
      var g := p.inbox.grants;
      FramesStep(ps);
      ReadManyStep(p, bufLen, times);
      SlotGets(p, ps[0], Frames(ps[1..]), bufLen, times[0]);
      FramesReadBack(SlotRead(p, bufLen, times[0]).1, ps[1..], bufLen, times[1..]);
    }
  }

  lemma ReadNone(p: Peer, bufLen: nat)
    ensures ReadMany(p, bufLen, []) == ([], p)
  {
  }

  lemma ReadSome(p: Pipe, n: nat)
    requires 0 < n <= |p.bytes| && ReadCount(p, n) > 0
    ensures p.grants != [] && p.grants[0] >= 1
    ensures ReadCount(p, n) == if p.grants[0] < n then p.grants[0] else n
    ensures AfterRead(p, n) == Pipe(p.bytes[ReadCount(p, n)..], p.grants[1..])
  {
  }

  // A payload that is read has come.
  lemma {:induction false} CollectedComes(p: Pipe, n: nat, got: seq<byte>)
    requires n <= |p.bytes| && Collect(p, n, got).Got?
    ensures PayloadComes(p.grants, n)
    decreases n
  {
    hide ReadCount, AfterRead, Collect;
    CollectStep(p, n, got);
    if n > 0 {
      ReadSome(p, n);
      CollectedComes(AfterRead(p, n), n - ReadCount(p, n), got + p.bytes[..ReadCount(p, n)]);
    }
  }

  lemma GotMeans(p: Pipe, bufLen: nat)
    requires ReadFrame(p, bufLen).Got?
    ensures p.grants != [] && p.grants[0] >= 2 && ReadCount(p, 2) == 2 && LengthIn(p.bytes[..2]) <= MAX_FRAME
    ensures Collect(AfterRead(p, 2), LengthIn(p.bytes[..2]), []).Got?
  {
    hide LengthIn, Collect;
  }

  // A frame that is read came whole and is no longer than a packet.
  lemma FrameComes(d: seq<byte>, rest: seq<byte>, g: seq<int>, bufLen: nat)
    requires |d| < 0x1_0000 && ReadFrame(Pipe(Frame(d) + rest, g), bufLen).Got?
    ensures |d| <= MAX_FRAME && g != [] && g[0] >= 2 && PayloadComes(g[1..], |d|)
  {
    hide LengthIn, Header, ReadCount, AfterRead, Collect, PayloadComes, ReadFrame;
    GotMeans(Pipe(Frame(d) + rest, g), bufLen);
    var p := HeaderRead(|d|, d + rest, g);
    assert Frame(d) + rest == Header(|d|) + (d + rest);
    CollectedComes(Pipe(d + rest, g[1..]), |d|, []);
  }

  /** Packets of less than 65536 bytes are all read back from an active slot, in order, exactly when none is longer
      than 512 bytes, every header comes in one read and no read for a payload finds nothing. */
  lemma {:induction false} ReadBackIff(p: Peer, ps: seq<seq<byte>>, bufLen: nat, times: seq<int>)
    requires p.active && p.inbox.bytes == Frames(ps) && |times| == |ps|
    requires MAX_FRAME <= bufLen && forall i :: 0 <= i < |ps| ==> |ps[i]| < 0x1_0000
    ensures ReadMany(p, bufLen, times).0 == ps
      <==> (forall i :: 0 <= i < |ps| ==> |ps[i]| <= MAX_FRAME) && Comes(p.inbox.grants, ps)
    decreases |ps|
  {
    if (forall i :: 0 <= i < |ps| ==> |ps[i]| <= MAX_FRAME) && Comes(p.inbox.grants, ps) {
      FramesReadBack(p, ps, bufLen, times);
    } else if ps != [] && ReadMany(p, bufLen, times).0 == ps {
      ReadBackComes(p, ps, bufLen, times);
    }
  }

  lemma FramesStep(ps: seq<seq<byte>>)
    requires ps != []
    ensures Frames(ps) == Frame(ps[0]) + Frames(ps[1..])
  {
  }

  lemma SlotGot(p: Peer, d: seq<byte>, rest: seq<byte>, bufLen: nat, now: int)
    requires p.active && p.inbox.bytes == Frame(d) + rest && |d| < 0x1_0000 && SlotRead(p, bufLen, now).0.Some?
    ensures |d| <= MAX_FRAME
    ensures var g := p.inbox.grants; g != [] && g[0] >= 2 && PayloadComes(g[1..], |d|)
  {
    hide ReadFrame, Frame, PayloadComes;
    FrameComes(d, rest, p.inbox.grants, bufLen);
  }

  lemma {:induction false} ReadBackComes(p: Peer, ps: seq<seq<byte>>, bufLen: nat, times: seq<int>)
    requires p.active && p.inbox.bytes == Frames(ps) && |times| == |ps|
    requires MAX_FRAME <= bufLen && forall i :: 0 <= i < |ps| ==> |ps[i]| < 0x1_0000
    requires ReadMany(p, bufLen, times).0 == ps
    ensures forall i :: 0 <= i < |ps| ==> |ps[i]| <= MAX_FRAME
    ensures Comes(p.inbox.grants, ps)
    decreases |ps|
  {
    hide SlotRead, Frame, Frames, PayloadComes, GrantsAfter, ReadMany;
    if ps != [] {
      FramesStep(ps);
      ReadManyStep(p, bufLen, times);
      SlotGot(p, ps[0], Frames(ps[1..]), bufLen, times[0]);
      SlotGets(p, ps[0], Frames(ps[1..]), bufLen, times[0]);
      var q := SlotRead(p, bufLen, times[0]).1;
      assert ps[1..] == ReadMany(q, bufLen, times[1..]).0;
      ReadBackComes(q, ps[1..], bufLen, times[1..]);
    }
  }

  /** An empty packet is framed and read, but the caller sees the same answer as when nothing has come. */
  lemma EmptyLooksIdle(rest: seq<byte>, g: seq<int>, bufLen: nat)
    requires g != [] && g[0] >= 2
    ensures ReadFrame(Pipe(Frame([]) + rest, g), bufLen) == Got([], Pipe(rest, g[1..]))
  {
    hide LengthIn, Header, ReadCount, AfterRead;
    var p := HeaderRead(0, rest, g);
    assert Frame([]) + rest == Header(0) + rest;
  }

  /** A frame announcing more than a packet is refused but the peer stays active, and its payload is
      left in the stream to be taken for the next header. */
  lemma LongFrameStays(d: seq<byte>, rest: seq<byte>, g: seq<int>, bufLen: nat)
    requires MAX_FRAME < |d| < 0x1_0000 && g != [] && g[0] >= 2
    ensures ReadFrame(Pipe(Frame(d) + rest, g), bufLen) == Rejected(Pipe(d + rest, g[1..]))
  {
    hide LengthIn, Header, ReadCount, AfterRead;
    var p := HeaderRead(|d|, d + rest, g);
    assert Frame(d) + rest == Header(|d|) + (d + rest);
  }

  /** From one end to the other: what a sender hands to a peer that keeps accepting is what the receiver's reads
      return, and the receiver's slot is as active and empty afterwards as before. */
  lemma Delivered(p: Peer, ds: seq<seq<byte>>, q: Peer, bufLen: nat, times: seq<int>)
    requires p.active && p.fd >= 0 && p.out == [] && SentAll(p, ds).active
    requires q.active && q.inbox.bytes == SentAll(p, ds).out && |times| == |ds|
    requires forall i :: 0 <= i < |ds| ==> 0 < |ds[i]| <= MAX_FRAME
    requires MAX_FRAME <= bufLen && Comes(q.inbox.grants, ds)
    ensures ReadMany(q, bufLen, times).0 == ds
    ensures ReadMany(q, bufLen, times).1.active && ReadMany(q, bufLen, times).1.inbox.bytes == []
  {
    var n, k := StreamIsFrames(p, ds);
    assert p.out + Frames(ds) == Frames(ds);
    FramesReadBack(q, ds, bufLen, times);
  }

  /** The header is the length, the high byte first. */
  lemma HeaderBigEndian(n: nat)
    requires n < 0x1_0000
    ensures |Header(n)| == 2 && 256 * (Header(n)[0] as int) + Header(n)[1] as int == n
  {
    HeaderParts(n);
    ByteOfInt(n / 256 % 256);
    ByteOfInt(n % 256);
  }
}
