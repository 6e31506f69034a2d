/** The Salsa20 and XSalsa20 stream ciphers of tweetnacl.c: crypto_stream_salsa20_xor,
    crypto_stream and crypto_stream_xor. */
module Stream {
  import opened Arith
  import opened Limbs
  import opened Bits
  import opened SalsaStream

  // "expand 32-byte k"
  const SIGMA: seq<byte> := [0x65, 0x78, 0x70, 0x61, 0x6e, 0x64, 0x20, 0x33,
                             0x32, 0x2d, 0x62, 0x79, 0x74, 0x65, 0x20, 0x6b]

  lemma SigmaLength()
    ensures |SIGMA| == 16
  {
  }

  // ---- the key stream: block t is the core applied to the nonce and the 64-bit counter t ----

  ghost function BlockInput(n: seq<byte>, t: nat): (s: seq<byte>)
    requires |n| == 8
    ensures |s| == 16
  {
    n + LeBytes(t % 0x1_0000_0000_0000_0000, 8)
  }

  ghost function KeyByte(n: seq<byte>, k: seq<byte>, i: nat): byte
    requires |n| == 8 && |k| == 32
  {
    CoreSalsa20(BlockInput(n, i / 64), k, SIGMA)[i % 64]
  }

  ghost function StreamXor(m: seq<byte>, n: seq<byte>, k: seq<byte>): (c: seq<byte>)
    requires |n| == 8 && |k| == 32
    ensures |c| == |m|
  {
    seq(|m|, i requires 0 <= i < |m| => m[i] ^ KeyByte(n, k, i))
  }

  // ---- the counter ----

  method BumpByte(z: array<byte>, i: nat, u: int) returns (u': int)
    requires i < z.Length && 0 <= u <= 1
    modifies z
    ensures 0 <= u' <= 1
    ensures z[i] as int == (u + old(z[i]) as int) % 256 && u' == (u + old(z[i]) as int) / 256
    ensures forall j :: 0 <= j < z.Length && j != i ==> z[j] == old(z[j])
  {
    var v := u + z[i] as int;
    ByteOfInt(v % 256);
    z[i] := (v % 256) as byte;
    u' := v / 256;
  }

  lemma CounterStart()
    ensures Val([], 256) == 0 && Ints([]) == [] && Pow(256, 0) == 1 && Pow(256, 8) == 0x1_0000_0000_0000_0000
  {
    assert Pow(256, 4) == 0x1_0000_0000;
    PowAdd(256, 4, 4);
  }

  lemma PowStep(i: nat)
    ensures Pow(256, i + 1) == 256 * Pow(256, i)
  {
  }

  lemma IntsAppend(s: seq<byte>, b: byte)
    ensures Ints(s + [b]) == Ints(s) + [b as int]
  {
  }

  method BumpCounter(z: array<byte>)
    requires z.Length == 16
    modifies z
    ensures z[..8] == old(z[..8])
    ensures Le(z[8..]) == (Le(old(z[8..])) + 1) % 0x1_0000_0000_0000_0000
  {
    hide Val, Pow, Ints;
    CounterStart();
    ghost var s := Ints(z[8..]);
    var u := 1;
    var i := 8;
    assert z[8..8] == [] && s[..0] == [];
    while i < 16
      invariant 8 <= i <= 16
      invariant 0 <= u <= 1
      invariant forall j :: 0 <= j < 8 ==> z[j] == old(z[j])
      invariant forall j :: i <= j < 16 ==> z[j] as int == s[j - 8]
      invariant Val(Ints(z[8..i]), 256) + u * Pow(256, i - 8) == Val(s[..i - 8], 256) + 1
    {
      ghost var was := z[8..i];
      Column(s[i - 8], u, Pow(256, i - 8));
      PowStep(i - 8);
      u := BumpByte(z, i, u);
      assert z[8..i + 1] == was + [z[i]];
      IntsAppend(was, z[i]);
      ValAppend(Ints(was), 256, z[i] as int);
      ValPrefixStep(s, 256, i - 8);
      i := i + 1;
    }
    assert s[..8] == s && z[8..16] == z[8..];
    LeBound(z[8..]);
    DivModUnique(Val(s, 256) + 1, 0x1_0000_0000_0000_0000, u, Le(z[8..]));
  }

  lemma NextInput(z: seq<byte>, z': seq<byte>, n: seq<byte>, t: nat)
    requires |n| == 8 && z == BlockInput(n, t)
    requires |z'| == 16 && z'[..8] == z[..8]
    requires Le(z'[8..]) == (Le(z[8..]) + 1) % 0x1_0000_0000_0000_0000
    ensures z' == BlockInput(n, t + 1)
  {
    var m := 0x1_0000_0000_0000_0000;
    assert Pow(256, 8) == m;
    LeOfLeBytes(t % m, 8);
    LeOfLeBytes((t + 1) % m, 8);
    assert z[8..] == LeBytes(t % m, 8) && z[..8] == n;
    ModAdd(t, 1, m);
    LeInjective(z'[8..], LeBytes((t + 1) % m, 8));
    assert z' == z'[..8] + z'[8..];
  }

  // ---- the stream ----

  ghost function Source(m: array?<byte>, b: nat): (s: seq<byte>)
    requires m != null ==> b <= m.Length
    reads m
    ensures |s| == b
  {
    if m == null then seq(b, i => 0) else m[..b]
  }

  /** c[off..off+len] = m[off..off+len] xor the first bytes of x; a null m reads as zeros. */
  method XorBlock(c: array<byte>, m: array?<byte>, off: nat, len: nat, x: array<byte>, ghost s: seq<byte>)
    requires off + len <= |s| <= c.Length && len <= 64 == x.Length && x != c
    requires m != null ==> |s| <= m.Length
    requires forall i :: off <= i < |s| ==> s[i] == if m == null then 0 else m[i]
    modifies c
    ensures forall i :: off <= i < off + len ==> c[i] == s[i] ^ x[i - off]
    ensures forall i :: 0 <= i < c.Length && (i < off || i >= off + len) ==> c[i] == old(c[i])
  {
    ghost var key := x[..];
    var i := 0;
    while i < len
      invariant 0 <= i <= len
      invariant x[..] == key
      invariant forall j :: off + i <= j < off + len ==> s[j] == if m == null then 0 else m[j]
      invariant forall j :: off <= j < off + i ==> c[j] == s[j] ^ key[j - off]
      invariant forall j :: 0 <= j < c.Length && (j < off || j >= off + i) ==> c[j] == old(c[j])
    {
      var b: byte := if m != null then m[off + i] else 0;
      assert b == s[off + i] && x[i] == key[i];
      c[off + i] := b ^ x[i];
      i := i + 1;
    }
  }

  // The stream's block t.
  ghost function BlockAt(n: seq<byte>, k: seq<byte>, t: nat): (x: seq<byte>)
    requires |n| == 8 && |k| == 32
    ensures |x| == 64
  {
    CoreSalsa20(BlockInput(n, t), k, SIGMA)
  }

  lemma StreamAt(s: seq<byte>, n: seq<byte>, k: seq<byte>, off: nat, i: nat)
    requires |n| == 8 && |k| == 32 && off % 64 == 0 && off <= i < off + 64 && i < |s|
    ensures StreamXor(s, n, k)[i] == s[i] ^ BlockAt(n, k, off / 64)[i - off]
  {
    hide CoreSalsa20, BlockInput;
    assert i / 64 == off / 64 && i % 64 == i - off;
  }

  lemma BlockOfStream(s: seq<byte>, n: seq<byte>, k: seq<byte>, off: nat, len: nat,
                      x: seq<byte>, c: seq<byte>, r: seq<byte>)
    requires |n| == 8 && |k| == 32 && off % 64 == 0 && len <= 64 == |x| && off + len <= |s| == |r| <= |c|
    requires forall i :: off <= i < off + len ==> c[i] == s[i] ^ x[i - off]
    requires x == BlockAt(n, k, off / 64) && r == StreamXor(s, n, k)
    ensures forall i :: off <= i < off + len ==> c[i] == r[i]
  {
    hide *;
    forall i | off <= i < off + len
      ensures c[i] == r[i]
    {
      StreamAt(s, n, k, off, i);
    }
  }

  lemma BlockAtIs(n: seq<byte>, k: seq<byte>, t: nat)
    requires |n| == 8 && |k| == 32
    ensures BlockAt(n, k, t) == CoreSalsa20(BlockInput(n, t), k, SIGMA)
  {
    hide CoreSalsa20, BlockInput;
  }

  method StreamLoop(c: array<byte>, m: array?<byte>, b: nat, n: seq<byte>, k: seq<byte>, ghost s: seq<byte>)
    requires |n| == 8 && |k| == 32 && b == |s| <= c.Length && (m != null ==> b <= m.Length)
    requires forall i :: 0 <= i < b ==> s[i] == if m == null then 0 else m[i]
    modifies c
    ensures forall i :: 0 <= i < b ==> c[i] == StreamXor(s, n, k)[i]
    ensures forall i :: b <= i < c.Length ==> c[i] == old(c[i])
  {
    hide *;
    var z, x := new byte[16], new byte[64];
    ghost var r := StreamXor(s, n, k);
    StartCounter(z, n);
    SigmaLength();
    var done := 0;
    while b - done >= 64
      invariant 0 <= done <= b && done % 64 == 0
      invariant z[..] == BlockInput(n, done / 64)
      invariant forall i :: done <= i < b ==> s[i] == if m == null then 0 else m[i]
      invariant forall i :: 0 <= i < done ==> c[i] == r[i]
      invariant forall i :: b <= i < c.Length ==> c[i] == old(c[i])
      decreases b - done
    {
      CryptoCoreSalsa20(x, z[..], k, SIGMA);
      XorBlock(c, m, done, 64, x, s);
      BlockAtIs(n, k, done / 64);
      BlockOfStream(s, n, k, done, 64, x[..], c[..], r);
      ghost var was := z[..];
      BumpCounter(z);
      NextInput(was, z[..], n, done / 64);
      done := done + 64;
    }
    if b - done > 0 {
      CryptoCoreSalsa20(x, z[..], k, SIGMA);
      XorBlock(c, m, done, b - done, x, s);
      BlockAtIs(n, k, done / 64);
      BlockOfStream(s, n, k, done, b - done, x[..], c[..], r);
    }
  }

  /** c[..b] = m[..b] xor the stream. m may be null (zeros) or the same array as c. */
  method CryptoStreamSalsa20Xor(c: array<byte>, m: array?<byte>, b: nat, n: seq<byte>, k: seq<byte>)
    requires |n| == 8 && |k| == 32 && b <= c.Length && (m != null ==> b <= m.Length)
    modifies c
    ensures c[..b] == StreamXor(old(Source(m, b)), n, k)
    ensures c[b..] == old(c[b..])
  {
    if b == 0 { return; }
    StreamLoop(c, m, b, n, k, Source(m, b));
  }

  method StartCounter(z: array<byte>, n: seq<byte>)
    requires z.Length == 16 && |n| == 8
    modifies z
    ensures z[..] == BlockInput(n, 0)
  {
    var i := 0;
    while i < 16
      invariant 0 <= i <= 16
      invariant forall j :: 0 <= j < i ==> z[j] == 0
    {
      z[i] := 0;
      i := i + 1;
    }
    i := 0;
    while i < 8
      invariant 0 <= i <= 8
      invariant forall j :: 0 <= j < i ==> z[j] == n[j]
      invariant forall j :: 8 <= j < 16 ==> z[j] == 0
    {
      z[i] := n[i];
      i := i + 1;
    }
    ZeroCounter(z[8..]);
    assert z[..] == z[..8] + z[8..];
  }

  lemma ZeroCounter(s: seq<byte>)
    requires |s| == 8 && forall i :: 0 <= i < 8 ==> s[i] == 0
    ensures s == LeBytes(0, 8)
  {
    ValZeros(Ints(s), 256);
    assert Pow(256, 8) == 0x1_0000_0000_0000_0000;
    LeOfLeBytes(0, 8);
    LeInjective(s, LeBytes(0, 8));
  }

  // ---- XSalsa20: a 24-byte nonce, the first 16 bytes of which select the key ----

  ghost function XStreamXor(m: seq<byte>, n: seq<byte>, k: seq<byte>): (c: seq<byte>)
    requires |n| == 24 && |k| == 32
    ensures |c| == |m|
  {
    StreamXor(m, n[16..], CoreHSalsa20(n[..16], k, SIGMA))
  }

  method CryptoStreamXor(c: array<byte>, m: array?<byte>, d: nat, n: seq<byte>, k: seq<byte>)
    requires |n| == 24 && |k| == 32 && d <= c.Length && (m != null ==> d <= m.Length)
    modifies c
    ensures c[..d] == XStreamXor(old(Source(m, d)), n, k)
    ensures c[d..] == old(c[d..])
  {
    hide CoreHSalsa20, StreamXor;
    var s := new byte[32];
    CryptoCoreHsalsa20(s, n[..16], k, SIGMA);
    CryptoStreamSalsa20Xor(c, m, d, n[16..], s[..]);
  }

  // The stream itself: crypto_stream passes a null message.
  method CryptoStream(c: array<byte>, d: nat, n: seq<byte>, k: seq<byte>)
    requires |n| == 24 && |k| == 32 && d <= c.Length
    modifies c
    ensures c[..d] == XStreamXor(seq(d, i => 0), n, k)
    ensures c[d..] == old(c[d..])
  {
    CryptoStreamXor(c, null, d, n, k);
  }

  // ---- what the stream is for ----

  lemma XorTwice(x: byte, y: byte)
    ensures (x ^ y) ^ y == x
    ensures 0 ^ y == y
  {
  }

  /** Applying the stream twice is the identity. */
  lemma StreamTwice(m: seq<byte>, n: seq<byte>, k: seq<byte>)
    requires |n| == 24 && |k| == 32
    ensures XStreamXor(XStreamXor(m, n, k), n, k) == m
  {
    SalsaTwice(m, n[16..], CoreHSalsa20(n[..16], k, SIGMA));
  }

  lemma SalsaTwice(m: seq<byte>, n: seq<byte>, k: seq<byte>)
    requires |n| == 8 && |k| == 32
    ensures StreamXor(StreamXor(m, n, k), n, k) == m
  {
    hide KeyByte;
    forall i | 0 <= i < |m|
      ensures StreamXor(StreamXor(m, n, k), n, k)[i] == m[i]
    {
      XorTwice(m[i], KeyByte(n, k, i));
    }
  }

  /** A shorter stream is a prefix of a longer one. */
  lemma StreamPrefix(m: seq<byte>, n: seq<byte>, k: seq<byte>, d: nat)
    requires |n| == 24 && |k| == 32 && d <= |m|
    ensures XStreamXor(m, n, k)[..d] == XStreamXor(m[..d], n, k)
  {
    SalsaPrefix(m, n[16..], CoreHSalsa20(n[..16], k, SIGMA), d);
  }

  lemma SalsaPrefix(m: seq<byte>, n: seq<byte>, k: seq<byte>, d: nat)
    requires |n| == 8 && |k| == 32 && d <= |m|
    ensures StreamXor(m, n, k)[..d] == StreamXor(m[..d], n, k)
  {
    hide KeyByte;
  }
}
