/** crypto_secretbox and crypto_secretbox_open of tweetnacl.c. */
module Secretbox {
  import opened Bits
  import opened Options
  import opened Stream
  import opened Poly1305

  ghost function Zeros(n: nat): (s: seq<byte>)
    ensures |s| == n && forall i :: 0 <= i < n ==> s[i] == 0
  {
    seq(n, i => 0)
  }

  // The box of a padded message: sixteen zeros, the tag, the encrypted message.
  ghost function Seal(m: seq<byte>, n: seq<byte>, k: seq<byte>): (c: Option<seq<byte>>)
    requires |n| == 24 && |k| == 32
    ensures c.Some? <==> |m| >= 32
    ensures c.Some? ==> |c.value| == |m|
  {
    if |m| < 32 then None
    else
      var s := XStreamXor(m, n, k);
      Some(Zeros(16) + Mac(s[32..], s[..32]) + s[32..])
  }

  // The padded message of a box whose tag fits.
  ghost function Open(c: seq<byte>, n: seq<byte>, k: seq<byte>): (m: Option<seq<byte>>)
    requires |n| == 24 && |k| == 32
    ensures m.Some? ==> |m.value| == |c| >= 32
  {
    if |c| < 32 then None else Unwrap(c, XStreamXor(Zeros(32), n, k), XStreamXor(c, n, k))
  }

  // key: the tag's key; s: the box with the stream taken off.
  ghost function Unwrap(c: seq<byte>, key: seq<byte>, s: seq<byte>): (m: Option<seq<byte>>)
    requires |c| == |s| >= 32 && |key| == 32
    ensures m.Some? ==> |m.value| == |c|
  {
    if c[16..32] != Mac(c[32..], key) then None else Some(Zeros(32) + s[32..])
  }

  method ZeroPrefix(c: array<byte>, n: nat)
    requires n <= c.Length
    modifies c
    ensures forall i :: 0 <= i < n ==> c[i] == 0
    ensures forall i :: n <= i < c.Length ==> c[i] == old(c[i])
  {
    var i := 0;
    while i < n
      invariant 0 <= i <= n
      invariant forall j :: 0 <= j < i ==> c[j] == 0
      invariant forall j :: i <= j < c.Length ==> c[j] == old(c[j])
    {
      c[i] := 0;
      i := i + 1;
    }
  }

  /** c may be m. The tag is written over the second half of its own key. */
  method CryptoSecretbox(c: array<byte>, m: array<byte>, d: nat, n: seq<byte>, k: seq<byte>) returns (r: int)
    requires |n| == 24 && |k| == 32 && d <= c.Length && d <= m.Length
    modifies c
    ensures r == if d < 32 then -1 else 0
    ensures r == 0 ==> Some(c[..d]) == Seal(old(m[..d]), n, k)
    ensures r != 0 ==> c[..] == old(c[..])
    ensures c[d..] == old(c[d..])
  {
    hide XStreamXor, Mac;
    if d < 32 { return -1; }
    ghost var s := XStreamXor(m[..d], n, k);
    CryptoStreamXor(c, m, d, n, k);
    assert c[..d] == s;
    assert c[32..32 + (d - 32)] == s[32..] && c[0..32] == s[..32];
    CryptoOnetimeauth(c, 16, c, 32, d - 32, c, 0);
    ghost var tag := c[16..16 + 16];
    ZeroPrefix(c, 16);
    assert c[16..32] == tag && c[32..d] == s[32..];
    assert c[..d] == Zeros(16) + c[16..32] + c[32..d];
    r := 0;
  }

  /** m may be c. Nothing is written unless the tag fits. */
  method CryptoSecretboxOpen(m: array<byte>, c: array<byte>, d: nat, n: seq<byte>, k: seq<byte>) returns (r: int)
    requires |n| == 24 && |k| == 32 && d <= c.Length && d <= m.Length
    modifies m
    ensures r == if Open(old(c[..d]), n, k).Some? then 0 else -1
    ensures r == 0 ==> Some(m[..d]) == Open(old(c[..d]), n, k)
    ensures r != 0 ==> m[..] == old(m[..])
    ensures m[d..] == old(m[d..])
  {
    hide XStreamXor, Mac;
    if d < 32 { return -1; }
    ghost var box := c[..d];
    var x := new byte[32];
    CryptoStream(x, 32, n, k);
    assert x[..32] == x[..] && Zeros(32) == seq(32, i => 0 as byte);
    assert c[16..32] == box[16..32] && c[32..32 + (d - 32)] == box[32..];
    var v := CryptoOnetimeauthVerify(c[16..32], c, 32, d - 32, x);
    if v != 0 { return -1; }
    CryptoStreamXor(m, c, d, n, k);
    ghost var s := m[..d];
    ZeroPrefix(m, 32);
    assert m[..d] == Zeros(32) + s[32..];
    r := 0;
  }

  // ---- opening undoes sealing ----

  // The 32-byte stream that opening generates is what sealing left at the front: the tag's key.
  lemma KeyPrefix(m: seq<byte>, n: seq<byte>, k: seq<byte>)
    requires |n| == 24 && |k| == 32 && |m| >= 32 && m[..32] == Zeros(32)
    ensures XStreamXor(m, n, k)[..32] == XStreamXor(Zeros(32), n, k)
  {
    StreamPrefix(m, n, k, 32);
  }

  // Encrypted bytes past the first 32 do not depend on what stands in the first 32.
  lemma StreamTail(m: seq<byte>, m': seq<byte>, n: seq<byte>, k: seq<byte>)
    requires |n| == 24 && |k| == 32 && |m| == |m'| >= 32 && m[32..] == m'[32..]
    ensures XStreamXor(m, n, k)[32..] == XStreamXor(m', n, k)[32..]
  {
    SalsaTail(m, m', n[16..], SalsaStream.CoreHSalsa20(n[..16], k, SIGMA));
  }

  lemma SalsaTail(m: seq<byte>, m': seq<byte>, n: seq<byte>, k: seq<byte>)
    requires |n| == 8 && |k| == 32 && |m| == |m'| >= 32 && m[32..] == m'[32..]
    ensures StreamXor(m, n, k)[32..] == StreamXor(m', n, k)[32..]
  {
    hide KeyByte;
    forall i | 32 <= i < |m|
      ensures StreamXor(m, n, k)[i] == StreamXor(m', n, k)[i]
    {
      assert m[i] == m[32..][i - 32] && m'[i] == m'[32..][i - 32];
    }
  }

  /** Opening undoes sealing, for every padded message, nonce and key. */
  lemma OpenSeal(m: seq<byte>, n: seq<byte>, k: seq<byte>)
    requires |n| == 24 && |k| == 32 && |m| >= 32 && m[..32] == Zeros(32)
    ensures Open(Seal(m, n, k).value, n, k) == Some(m)
  {
    hide XStreamXor, Mac;
    var s := XStreamXor(m, n, k);
    var c := Seal(m, n, k).value;
    KeyPrefix(m, n, k);
    assert c[16..32] == Mac(s[32..], s[..32]) && c[32..] == s[32..];
    StreamTail(c, s, n, k);
    StreamTwice(m, n, k);
    assert m == Zeros(32) + m[32..];
  }

  /** Sealing undoes opening: an accepted box is the box of what it opens to. */
  lemma SealOpen(c: seq<byte>, n: seq<byte>, k: seq<byte>)
    requires |n| == 24 && |k| == 32 && |c| >= 32 && c[..16] == Zeros(16)
    requires Open(c, n, k).Some?
    ensures Seal(Open(c, n, k).value, n, k) == Some(c)
  {
    hide XStreamXor, Mac;
    var m := Open(c, n, k).value;
    var s := XStreamXor(c, n, k);
    var t := XStreamXor(m, n, k);
    assert m[..32] == Zeros(32) && m[32..] == s[32..];
    KeyPrefix(m, n, k);
    StreamTail(m, s, n, k);
    StreamTwice(c, n, k);
    assert t[32..] == c[32..];
    assert c == c[..16] + c[16..32] + c[32..];
  }
}
