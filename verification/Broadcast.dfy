/** vex_crypto_encrypt_broadcast and vex_crypto_decrypt_broadcast of crypto.c. */
module Broadcast {
  import opened Bits
  import opened Options
  import opened Poly1305
  import opened Secretbox
  import opened Stream

  const MAX_PAYLOAD: nat := 501

  // nonce, tag, encrypted message
  ghost function Encrypt(key: seq<byte>, nonce: seq<byte>, plain: seq<byte>): (c: Option<seq<byte>>)
    requires |key| == 32 && |nonce| == 24
    ensures c.Some? <==> |plain| <= 461
    ensures c.Some? ==> |c.value| == |plain| + 40 && c.value[..24] == nonce
  {
    if |plain| > MAX_PAYLOAD - 24 - 16 then None
    else Some(nonce + Seal(Zeros(32) + plain, nonce, key).value[16..])
  }

  ghost function Decrypt(key: seq<byte>, cipher: seq<byte>): (p: Option<seq<byte>>)
    requires |key| == 32
    ensures p.Some? ==> |cipher| >= 40 && |p.value| == |cipher| - 40
  {
    if |cipher| <= 24 then None
    else
      match Open(Zeros(16) + cipher[24..], cipher[..24], key)
      case None => None
      case Some(m) => Some(m[32..])
  }

  /** The nonce is the random input. Output: nonce, then the box without its sixteen zeros. */
  method EncryptBroadcast(key: seq<byte>, nonce: seq<byte>, plain: seq<byte>, cipher: array<byte>)
    returns (r: int, cipherLen: nat)
    requires |key| == 32 && |nonce| == 24 && MAX_PAYLOAD <= cipher.Length
    modifies cipher
    ensures r == if |plain| <= 461 then 0 else -1
    ensures r == 0 ==> cipherLen <= cipher.Length && Some(cipher[..cipherLen]) == Encrypt(key, nonce, plain)
  {
    hide Seal;
    r, cipherLen := -1, 0;
    if |plain| > MAX_PAYLOAD - 24 - 16 { return; }
    var padded, encrypted := new byte[32 + MAX_PAYLOAD], new byte[32 + MAX_PAYLOAD];
    ZeroPrefix(padded, 32);
    CopyInto(padded, 32, plain);
    assert padded[..32 + |plain|] == Zeros(32) + plain;
    var v := CryptoSecretbox(encrypted, padded, 32 + |plain|, nonce, key);
    if v != 0 { return; }
    CopyInto(cipher, 0, nonce);
    CopyInto(cipher, 24, encrypted[16..32 + |plain|]);
    cipherLen := 24 + |plain| + 32 - 16;
    assert cipher[..cipherLen] == nonce + encrypted[..32 + |plain|][16..];
    r := 0;
  }

  /** A cipher text is at most what the buffers hold: 24 + 501 bytes. */
  method DecryptBroadcast(key: seq<byte>, cipher: seq<byte>, plain: array<byte>) returns (r: int, plainLen: nat)
    requires |key| == 32 && |cipher| <= 24 + MAX_PAYLOAD <= 24 + plain.Length
    modifies plain
    ensures r == if Decrypt(key, cipher).Some? then 0 else -1
    ensures r == 0 ==> plainLen <= plain.Length && Some(plain[..plainLen]) == Decrypt(key, cipher)
    ensures r != 0 ==> plain[..] == old(plain[..])
  {
    hide Open;
    plainLen := 0;
    if |cipher| <= 24 { return -1, 0; }
    var ctLen := |cipher| - 24;
    var paddedCipher, decrypted := new byte[16 + MAX_PAYLOAD], new byte[32 + MAX_PAYLOAD];
    ZeroPrefix(paddedCipher, 16);
    CopyInto(paddedCipher, 16, cipher[24..]);
    assert paddedCipher[..16 + ctLen] == Zeros(16) + cipher[24..];
    var v := CryptoSecretboxOpen(decrypted, paddedCipher, 16 + ctLen, cipher[..24], key);
    if v != 0 { return -1, 0; }
    plainLen := ctLen - 16;
    CopyInto(plain, 0, decrypted[32..32 + plainLen]);
    assert plain[..plainLen] == decrypted[..16 + ctLen][32..];
    r := 0;
  }

  /** Decryption undoes encryption, with forty bytes of overhead. */
  lemma DecryptEncrypt(key: seq<byte>, nonce: seq<byte>, plain: seq<byte>)
    requires |key| == 32 && |nonce| == 24 && |plain| <= 461
    ensures |Encrypt(key, nonce, plain).value| == |plain| + 40
    ensures Decrypt(key, Encrypt(key, nonce, plain).value) == Some(plain)
  {
    hide Seal, Open;
    var m := Zeros(32) + plain;
    var c := Encrypt(key, nonce, plain).value;
    var box := Seal(m, nonce, key).value;
    OpenSeal(m, nonce, key);
    SealFront(m, nonce, key);
    assert Zeros(16) + c[24..] == box;
  }

  lemma SealFront(m: seq<byte>, n: seq<byte>, k: seq<byte>)
    requires |n| == 24 && |k| == 32 && |m| >= 32
    ensures Seal(m, n, k).value[..16] == Zeros(16)
  {
    hide XStreamXor, Mac;
    var s := XStreamXor(m, n, k);
    assert Seal(m, n, k).value == Zeros(16) + (Mac(s[32..], s[..32]) + s[32..]);
  }

  /** A packet payload decrypts to a message exactly when it is that message's encryption under the nonce it carries. */
  lemma DecryptsIff(key: seq<byte>, cipher: seq<byte>, plain: seq<byte>)
    requires |key| == 32 && 24 <= |cipher| <= MAX_PAYLOAD
    ensures Decrypt(key, cipher) == Some(plain) <==> Encrypt(key, cipher[..24], plain) == Some(cipher)
  {
    hide Seal, Open;
    var nonce := cipher[..24];
    if Decrypt(key, cipher) == Some(plain) {
      var box := Zeros(16) + cipher[24..];
      var m := Open(box, nonce, key).value;
      SealOpen(box, nonce, key);
      OpenFront(box, nonce, key);
      assert m == Zeros(32) + plain;
      assert cipher == nonce + box[16..];
    } else if Encrypt(key, nonce, plain) == Some(cipher) {
      DecryptEncrypt(key, nonce, plain);
    }
  }

  lemma OpenFront(c: seq<byte>, n: seq<byte>, k: seq<byte>)
    requires |n| == 24 && |k| == 32 && Open(c, n, k).Some?
    ensures Open(c, n, k).value[..32] == Zeros(32)
  {
  }
}
