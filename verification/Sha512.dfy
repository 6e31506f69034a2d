/** crypto_hashblocks and crypto_hash of tweetnacl.c against sections 5.1.2, 5.3.5 and 6.4 of FIPS 180-4. */
module Sha512 {
  import opened Arith
  import opened Limbs
  import opened Bits

  const M64: int := 0x1_0000_0000_0000_0000

  // C's unsigned long long; sums wrap.
  type u64 = x: int | 0 <= x < 0x1_0000_0000_0000_0000

  lemma TwoTo64()
    ensures Pow(2, 64) == M64 && Pow(256, 8) == M64
  {
    assert Pow(2, 8) == 256;
    PowAdd(2, 8, 8);
    PowAdd(2, 16, 16);
    PowAdd(2, 32, 32);
    assert Pow(256, 4) == 0x1_0000_0000;
    PowAdd(256, 4, 4);
  }

  // ---- section 4.1.3: functions on words ----

  function Rotr(x: int, c: nat): int
    requires c <= 64
  {
    PowPositive(2, c);
    Or(x / Pow(2, c), x * Pow(2, 64 - c) % M64)
  }

  function Shr(x: int, c: nat): int
  {
    PowPositive(2, c);
    x / Pow(2, c)
  }

  function Ch(x: int, y: int, z: int): int { Xor(And(x, y), And(M64 - 1 - x, z)) }
  function Maj(x: int, y: int, z: int): int { Xor(Xor(And(x, y), And(x, z)), And(y, z)) }
  function Sigma0(x: int): int { Xor(Xor(Rotr(x, 28), Rotr(x, 34)), Rotr(x, 39)) }
  function Sigma1(x: int): int { Xor(Xor(Rotr(x, 14), Rotr(x, 18)), Rotr(x, 41)) }
  function LowerSigma0(x: int): int { Xor(Xor(Rotr(x, 1), Rotr(x, 8)), Shr(x, 7)) }
  function LowerSigma1(x: int): int { Xor(Xor(Rotr(x, 19), Rotr(x, 61)), Shr(x, 6)) }

  // Section 4.2.3, four words to a row.
  function KRow(i: nat): (s: seq<int>)
    ensures |s| == 4
  {
    match i
    case 0 => [0x428a_2f98_d728_ae22, 0x7137_4491_23ef_65cd, 0xb5c0_fbcf_ec4d_3b2f, 0xe9b5_dba5_8189_dbbc]
    case 1 => [0x3956_c25b_f348_b538, 0x59f1_11f1_b605_d019, 0x923f_82a4_af19_4f9b, 0xab1c_5ed5_da6d_8118]
    case 2 => [0xd807_aa98_a303_0242, 0x1283_5b01_4570_6fbe, 0x2431_85be_4ee4_b28c, 0x550c_7dc3_d5ff_b4e2]
    case 3 => [0x72be_5d74_f27b_896f, 0x80de_b1fe_3b16_96b1, 0x9bdc_06a7_25c7_1235, 0xc19b_f174_cf69_2694]
    case 4 => [0xe49b_69c1_9ef1_4ad2, 0xefbe_4786_384f_25e3, 0x0fc1_9dc6_8b8c_d5b5, 0x240c_a1cc_77ac_9c65]
    case 5 => [0x2de9_2c6f_592b_0275, 0x4a74_84aa_6ea6_e483, 0x5cb0_a9dc_bd41_fbd4, 0x76f9_88da_8311_53b5]
    case 6 => [0x983e_5152_ee66_dfab, 0xa831_c66d_2db4_3210, 0xb003_27c8_98fb_213f, 0xbf59_7fc7_beef_0ee4]
    case 7 => [0xc6e0_0bf3_3da8_8fc2, 0xd5a7_9147_930a_a725, 0x06ca_6351_e003_826f, 0x1429_2967_0a0e_6e70]
    case 8 => [0x27b7_0a85_46d2_2ffc, 0x2e1b_2138_5c26_c926, 0x4d2c_6dfc_5ac4_2aed, 0x5338_0d13_9d95_b3df]
    case 9 => [0x650a_7354_8baf_63de, 0x766a_0abb_3c77_b2a8, 0x81c2_c92e_47ed_aee6, 0x9272_2c85_1482_353b]
    case 10 => [0xa2bf_e8a1_4cf1_0364, 0xa81a_664b_bc42_3001, 0xc24b_8b70_d0f8_9791, 0xc76c_51a3_0654_be30]
    case 11 => [0xd192_e819_d6ef_5218, 0xd699_0624_5565_a910, 0xf40e_3585_5771_202a, 0x106a_a070_32bb_d1b8]
    case 12 => [0x19a4_c116_b8d2_d0c8, 0x1e37_6c08_5141_ab53, 0x2748_774c_df8e_eb99, 0x34b0_bcb5_e19b_48a8]
    case 13 => [0x391c_0cb3_c5c9_5a63, 0x4ed8_aa4a_e341_8acb, 0x5b9c_ca4f_7763_e373, 0x682e_6ff3_d6b2_b8a3]
    case 14 => [0x748f_82ee_5def_b2fc, 0x78a5_636f_4317_2f60, 0x84c8_7814_a1f0_ab72, 0x8cc7_0208_1a64_39ec]
    case 15 => [0x90be_fffa_2363_1e28, 0xa450_6ceb_de82_bde9, 0xbef9_a3f7_b2c6_7915, 0xc671_78f2_e372_532b]
    case 16 => [0xca27_3ece_ea26_619c, 0xd186_b8c7_21c0_c207, 0xeada_7dd6_cde0_eb1e, 0xf57d_4f7f_ee6e_d178]
    case 17 => [0x06f0_67aa_7217_6fba, 0x0a63_7dc5_a2c8_98a6, 0x113f_9804_bef9_0dae, 0x1b71_0b35_131c_471b]
    case 18 => [0x28db_77f5_2304_7d84, 0x32ca_ab7b_40c7_2493, 0x3c9e_be0a_15c9_bebc, 0x431d_67c4_9c10_0d4c]
    case _ => [0x4cc5_d4be_cb3e_42b6, 0x597f_299c_fc65_7e2a, 0x5fcb_6fab_3ad6_faec, 0x6c44_198c_4a47_5817]
  }

  function KRows(n: nat): (s: seq<int>)
    ensures |s| == 4 * n
  {
    if n == 0 then [] else KRows(n - 1) + KRow(n - 1)
  }

  const K: seq<int> := KRows(20)

  lemma {:induction false} KRowsAt(n: nat, i: nat)
    requires i < 4 * n
    ensures KRows(n)[i] == KRow(i / 4)[i % 4]
  {
    hide KRow;
    if i < 4 * (n - 1) {
      KRowsAt(n - 1, i);
    } else {
      assert i / 4 == n - 1;
    }
  }

  // Section 5.3.5.
  const H0: seq<int> := [
    0x6a09_e667_f3bc_c908, 0xbb67_ae85_84ca_a73b,
    0x3c6e_f372_fe94_f82b, 0xa54f_f53a_5f1d_36f1,
    0x510e_527f_ade6_82d1, 0x9b05_688c_2b3e_6c1f,
    0x1f83_d9ab_fb41_bd6b, 0x5be0_cd19_137e_2179
  ]

  // The same as bytes, as the code has it, row by row.
  function IvRow(i: nat): (s: seq<byte>)
    ensures |s| == 8
  {
    match i
    case 0 => [0x6a, 0x09, 0xe6, 0x67, 0xf3, 0xbc, 0xc9, 0x08]
    case 1 => [0xbb, 0x67, 0xae, 0x85, 0x84, 0xca, 0xa7, 0x3b]
    case 2 => [0x3c, 0x6e, 0xf3, 0x72, 0xfe, 0x94, 0xf8, 0x2b]
    case 3 => [0xa5, 0x4f, 0xf5, 0x3a, 0x5f, 0x1d, 0x36, 0xf1]
    case 4 => [0x51, 0x0e, 0x52, 0x7f, 0xad, 0xe6, 0x82, 0xd1]
    case 5 => [0x9b, 0x05, 0x68, 0x8c, 0x2b, 0x3e, 0x6c, 0x1f]
    case 6 => [0x1f, 0x83, 0xd9, 0xab, 0xfb, 0x41, 0xbd, 0x6b]
    case _ => [0x5b, 0xe0, 0xcd, 0x19, 0x13, 0x7e, 0x21, 0x79]
  }

  function IvRows(n: nat): (s: seq<byte>)
    ensures |s| == 8 * n
  {
    if n == 0 then [] else IvRows(n - 1) + IvRow(n - 1)
  }

  const IV: seq<byte> := IvRows(8)

  // ---- words and bytes, big-endian ----

  function Be(s: seq<byte>): int
  {
    if s == [] then 0 else Be(s[..|s| - 1]) * 256 + s[|s| - 1] as int
  }

  function BeBytes(n: int, len: nat): (s: seq<byte>)
    ensures |s| == len
  {
    seq(len, i requires 0 <= i < len => DigitOf(n, 256, len - 1 - i) as byte)
  }

  // Word i of a byte string.
  function WordAt(s: seq<byte>, i: nat): int
    requires 8 * i + 8 <= |s|
  {
    Be(s[8 * i..8 * i + 8])
  }

  function StateOf(s: seq<byte>): (h: seq<int>)
    requires |s| == 64
    ensures |h| == 8
  {
    seq(8, i requires 0 <= i < 8 => WordAt(s, i))
  }

  function StateBytes(h: seq<int>): (s: seq<byte>)
    ensures |s| == 8 * |h|
  {
    seq(8 * |h|, i requires 0 <= i < 8 * |h| => BeBytes(h[i / 8], 8)[i % 8])
  }

  // ---- section 6.4.2: one block ----

  function Schedule(m: seq<byte>, t: nat): int
    requires |m| == 128
    decreases t, m
  {
    if t < 16 then WordAt(m, t)
    else (LowerSigma1(Schedule(m, t - 2)) + Schedule(m, t - 7)
          + LowerSigma0(Schedule(m, t - 15)) + Schedule(m, t - 16)) % M64
  }

  function Round(v: seq<int>, k: int, w: int): (v': seq<int>)
    requires |v| == 8
    ensures |v'| == 8
  {
    var t1 := (v[7] + Sigma1(v[4]) + Ch(v[4], v[5], v[6]) + k + w) % M64;
    var t2 := (Sigma0(v[0]) + Maj(v[0], v[1], v[2])) % M64;
    [(t1 + t2) % M64, v[0], v[1], v[2], (v[3] + t1) % M64, v[4], v[5], v[6]]
  }

  function Rounds(v: seq<int>, m: seq<byte>, n: nat): (v': seq<int>)
    requires |v| == 8 && |m| == 128 && n <= |K|
    ensures |v'| == 8
    decreases n, v
  {
    if n == 0 then v else Round(Rounds(v, m, n - 1), K[n - 1], Schedule(m, n - 1))
  }

  function AddState(v: seq<int>, h: seq<int>): (r: seq<int>)
    requires |v| == |h|
    ensures |r| == |h|
  {
    seq(|h|, i requires 0 <= i < |h| => (v[i] + h[i]) % M64)
  }

  function Compress(h: seq<int>, m: seq<byte>): (r: seq<int>)
    requires |h| == 8 && |m| == 128
    ensures |r| == 8
  {
    AddState(Rounds(h, m, |K|), h)
  }

  // All whole blocks of a byte string.
  function HashBlocks(h: seq<int>, m: seq<byte>): (r: seq<int>)
    requires |h| == 8
    ensures |r| == 8
    decreases |m|
  {
    if |m| < 128 then h else HashBlocks(Compress(h, m[..128]), m[128..])
  }

  // ---- section 5.1.2: padding ----

  function PadZeros(n: nat): nat { (239 - n % 128) % 128 }

  function Pad(m: seq<byte>): seq<byte>
  {
    m + [0x80] + seq(PadZeros(|m|), i => 0) + BeBytes(8 * |m|, 16)
  }

  function Sha512(m: seq<byte>): (s: seq<byte>)
    ensures |s| == 64
  {
    StateBytes(HashBlocks(H0, Pad(m)))
  }

  // The zeros are the fewest that fill the last block.
  lemma PadWhole(m: seq<byte>)
    ensures |Pad(m)| % 128 == 0 && |Pad(m)| - |m| <= 144
    ensures |m| + 1 + 16 <= |Pad(m)| < |m| + 1 + 16 + 128
  {
  }

  // ---- loading and storing ----

  lemma BeBound(s: seq<byte>)
    ensures 0 <= Be(s) < Pow(256, |s|)
  {
    if s != [] {
      BeBound(s[..|s| - 1]);
    }
  }

  method Dl64(s: seq<byte>) returns (u: u64)
    requires |s| == 8
    ensures u == Be(s)
  {
    u := 0;
    var i := 0;
    assert Pow(256, 0) == 1;
    BeBound(s);
    while i < 8
      invariant 0 <= i <= 8
      invariant u == Be(s[..i]) && Be(s[..i]) < Pow(256, i)
    {
      assert s[..i + 1][..i] == s[..i];
      BeBound(s[..i + 1]);
      WordRoom(i + 1);
      OrByte(u, s[i]);
      u := Or(u * 256, s[i] as int);
      i := i + 1;
    }
    assert s[..8] == s;
  }

  lemma WordRoom(i: nat)
    requires i <= 8
    ensures Pow(256, i) <= M64
  {
    assert Pow(256, 8) == M64;
    PowPositive(256, 8 - i);
    PowAdd(256, i, 8 - i);
    MulMono(Pow(256, i), 1, Pow(256, 8 - i));
  }

  method Ts64(x: array<byte>, o: nat, v: u64)
    requires o + 8 <= x.Length
    modifies x
    ensures x[o..o + 8] == BeBytes(v, 8)
    ensures forall i :: 0 <= i < x.Length && (i < o || i >= o + 8) ==> x[i] == old(x[i])
  {
    ghost var r := BeBytes(v, 8);
    var u := v;
    var i := 7;
    assert Pow(256, 0) == 1;
    while i >= 0
      invariant -1 <= i <= 7
      invariant Pow(256, 7 - i) > 0 && u == v / Pow(256, 7 - i)
      invariant forall j :: o + i < j < o + 8 ==> x[j] == r[j - o]
      invariant forall j :: 0 <= j < x.Length && (j < o || j >= o + 8) ==> x[j] == old(x[j])
    {
      DivTwice(v, Pow(256, 7 - i));
      assert Pow(256, 8 - i) == 256 * Pow(256, 7 - i);
      assert r[i] == (u % 256) as byte;
      x[o + i] := (u % 256) as byte;
      u := u / 256;
      i := i - 1;
    }
  }

  // ---- the rolling schedule ----

  lemma ScheduleStep(m: seq<byte>, t: nat)
    requires |m| == 128 && t >= 16
    ensures Schedule(m, t) == (Schedule(m, t - 16)
      + (Schedule(m, t - 7) + LowerSigma0(Schedule(m, t - 15)) + LowerSigma1(Schedule(m, t - 2)))) % M64
  {
    hide LowerSigma0, LowerSigma1;
  }

  // The sixteen words kept at a time.
  ghost predicate Window(w: seq<int>, m: seq<byte>, base: nat)
    requires |w| == 16 && |m| == 128
  {
    forall j :: 0 <= j < 16 ==> w[j] == Schedule(m, base + j)
  }

  /** Replace the window by the next one, word by word in place. */
  method NextWindow(w: array<u64>, ghost m: seq<byte>, ghost base: nat)
    requires w.Length == 16 && |m| == 128 && Window(w[..], m, base)
    modifies w
    ensures Window(w[..], m, base + 16)
  {
    hide Schedule, LowerSigma0, LowerSigma1;
    var j := 0;
    while j < 16
      invariant 0 <= j <= 16
      invariant forall q :: 0 <= q < 16 ==> w[q] == Schedule(m, if q < j then base + 16 + q else base + q)
    {
      ScheduleStep(m, base + 16 + j);
      assert w[(j + 9) % 16] == Schedule(m, base + j + 9);
      assert w[(j + 1) % 16] == Schedule(m, base + j + 1);
      assert w[(j + 14) % 16] == Schedule(m, base + j + 14);
      var s0, s1 := LowerSigma0(w[(j + 1) % 16]), LowerSigma1(w[(j + 14) % 16]);
      w[j] := (w[j] as int + (w[(j + 9) % 16] as int + s0 + s1)) % M64;
      j := j + 1;
    }
  }

  // ---- one round in place ----

  lemma RoundIs(v: seq<int>, k: int, w: int)
    requires |v| == 8
    ensures var t := (v[7] + Sigma1(v[4]) + Ch(v[4], v[5], v[6]) + k + w) % M64;
      Round(v, k, w) == [(t + Sigma0(v[0]) + Maj(v[0], v[1], v[2])) % M64, v[0], v[1], v[2],
                         (v[3] + t) % M64, v[4], v[5], v[6]]
  {
    hide Sigma0, Sigma1, Ch, Maj;
    var t := (v[7] + Sigma1(v[4]) + Ch(v[4], v[5], v[6]) + k + w) % M64;
    ModAdd(t, Sigma0(v[0]) + Maj(v[0], v[1], v[2]), M64);
    ModAdd(t, (Sigma0(v[0]) + Maj(v[0], v[1], v[2])) % M64, M64);
  }

  /** One round: the new words are formed in b and moved back one place further along. */
  method RoundInPlace(a: array<u64>, b: array<u64>, k: int, w: u64)
    requires a.Length == b.Length == 8 && a != b
    modifies a, b
    ensures a[..] == Round(old(a[..]), k, w)
  {
    hide Sigma0, Sigma1, Ch, Maj, Round;
    ghost var v: seq<int> := a[..];
    RoundIs(v, k, w);
    var j := 0;
    while j < 8
      invariant 0 <= j <= 8
      invariant a[..] == v
      invariant forall q :: 0 <= q < j ==> b[q] == a[q]
    {
      b[j] := a[j];
      j := j + 1;
    }
    var t: u64 := (a[7] as int + Sigma1(a[4]) + Ch(a[4], a[5], a[6]) + k + w as int) % M64;
    b[7] := (t as int + Sigma0(a[0]) + Maj(a[0], a[1], a[2])) % M64;
    b[3] := (b[3] as int + t as int) % M64;
    ghost var c: seq<int> := b[..];
    j := 0;
    while j < 8
      invariant 0 <= j <= 8
      invariant b[..] == c
      invariant forall q :: 0 <= q < j ==> a[(q + 1) % 8] == b[q]
    {
      a[(j + 1) % 8] := b[j];
      j := j + 1;
    }
    assert a[(0 + 1) % 8] == c[0] && a[(1 + 1) % 8] == c[1] && a[(2 + 1) % 8] == c[2] && a[(3 + 1) % 8] == c[3];
    assert a[(4 + 1) % 8] == c[4] && a[(5 + 1) % 8] == c[5] && a[(6 + 1) % 8] == c[6] && a[(7 + 1) % 8] == c[7];
  }

  lemma KLength()
    ensures |K| == 80
  {
  }

  lemma RoundsStep(v: seq<int>, m: seq<byte>, n: nat)
    requires |v| == 8 && |m| == 128 && n < |K|
    ensures Rounds(v, m, n + 1) == Round(Rounds(v, m, n), K[n], Schedule(m, n))
  {
    hide Round, Schedule;
  }

  /** The eighty rounds of one block. */
  method EightyRounds(a: array<u64>, b: array<u64>, w: array<u64>, m: seq<byte>)
    requires a.Length == b.Length == 8 && w.Length == 16 && |m| == 128
    requires a != b && a != w && b != w
    modifies a, b, w
    ensures a[..] == Rounds(old(a[..]), m, |K|)
  {
    hide Round, Rounds, Schedule, K, WordAt;
    KLength();
    ghost var v: seq<int> := a[..];
    RoundsZero(v, m);
    LoadBlock(w, m);
    var i := 0;
    while i < 80
      invariant 0 <= i <= 80
      invariant Window(w[..], m, i / 16 * 16)
      invariant a[..] == Rounds(v, m, i)
    {
      assert w[..][i % 16] == Schedule(m, i / 16 * 16 + i % 16);
      RoundsStep(v, m, i);
      RoundInPlace(a, b, K[i], w[i % 16]);
      if i % 16 == 15 {
        NextWindow(w, m, i / 16 * 16);
        assert (i + 1) / 16 * 16 == i / 16 * 16 + 16;
      } else {
        assert (i + 1) / 16 == i / 16;
      }
      i := i + 1;
    }
  }

  lemma RoundsZero(v: seq<int>, m: seq<byte>)
    requires |v| == 8 && |m| == 128
    ensures Rounds(v, m, 0) == v
  {
  }

  method LoadBlock(w: array<u64>, m: seq<byte>)
    requires w.Length == 16 && |m| == 128
    modifies w
    ensures Window(w[..], m, 0)
  {
    hide Be;
    var i := 0;
    while i < 16
      invariant 0 <= i <= 16
      invariant forall j :: 0 <= j < i ==> w[j] == Schedule(m, j)
    {
      w[i] := Dl64(m[8 * i..8 * i + 8]);
      i := i + 1;
    }
  }

  // ---- crypto_hashblocks ----

  lemma HashBlocksStep(h: seq<int>, m: seq<byte>, done: nat)
    requires |h| == 8 && done + 128 <= |m|
    ensures HashBlocks(h, m[done..]) == HashBlocks(Compress(h, m[done..done + 128]), m[done + 128..])
  {
    hide Compress;
    assert m[done..][..128] == m[done..done + 128] && m[done..][128..] == m[done + 128..];
  }

  lemma HashBlocksDone(h: seq<int>, m: seq<byte>)
    requires |h| == 8 && |m| < 128
    ensures HashBlocks(h, m) == h
  {
  }

  method LoadState(x: array<byte>, z: array<u64>, a: array<u64>)
    requires x.Length == 64 && z.Length == a.Length == 8 && z != a
    modifies z, a
    ensures z[..] == a[..] == StateOf(x[..])
  {
    hide Be;
    ghost var s := x[..];
    var i := 0;
    while i < 8
      invariant 0 <= i <= 8
      invariant forall j :: 0 <= j < i ==> z[j] == a[j] == StateOf(s)[j]
    {
      assert s[8 * i..8 * i + 8] == x[8 * i..8 * i + 8];
      a[i] := Dl64(x[8 * i..8 * i + 8]);
      z[i] := a[i];
      i := i + 1;
    }
  }

  method StoreState(x: array<byte>, z: array<u64>)
    requires x.Length == 64 && z.Length == 8 && x as object != z as object
    modifies x
    ensures x[..] == StateBytes(z[..])
  {
    hide BeBytes, DigitOf;
    ghost var h: seq<int> := z[..];
    ghost var r := StateBytes(h);
    var i := 0;
    while i < 8
      invariant 0 <= i <= 8
      invariant z[..] == h
      invariant forall j :: 0 <= j < 8 * i ==> x[j] == r[j]
    {
      Ts64(x, 8 * i, z[i]);
      StateSlice(h, i);
      ghost var y := x[8 * i..8 * i + 8];
      assert forall j :: 8 * i <= j < 8 * i + 8 ==> x[j] == y[j - 8 * i] == r[8 * i..8 * i + 8][j - 8 * i];
      i := i + 1;
    }
  }

  lemma StateSlice(h: seq<int>, i: nat)
    requires i < |h|
    ensures StateBytes(h)[8 * i..8 * i + 8] == BeBytes(h[i], 8)
  {
    hide BeBytes;
  }

  method AddInto(a: array<u64>, z: array<u64>)
    requires a.Length == z.Length == 8 && a != z
    modifies a, z
    ensures a[..] == z[..] == AddState(old(a[..]), old(z[..]))
  {
    var i := 0;
    while i < 8
      invariant 0 <= i <= 8
      invariant forall j :: 0 <= j < i ==> a[j] == z[j] == (old(a[j]) + old(z[j])) % M64
      invariant forall j :: i <= j < 8 ==> a[j] == old(a[j]) && z[j] == old(z[j])
    {
      a[i] := (a[i] as int + z[i] as int) % M64;
      z[i] := a[i];
      i := i + 1;
    }
  }

  lemma CompressIs(h: seq<int>, m: seq<byte>)
    requires |h| == 8 && |m| == 128
    ensures Compress(h, m) == AddState(Rounds(h, m, |K|), h)
  {
  }

  /** x: the chaining state as bytes. Absorbs the whole blocks of m and returns the length left over. */
  method CryptoHashblocks(x: array<byte>, m: seq<byte>) returns (left: nat)
    requires x.Length == 64
    modifies x
    ensures left == |m| % 128
    ensures x[..] == StateBytes(HashBlocks(StateOf(old(x[..])), m))
  {
    hide Compress, HashBlocks, StateOf, StateBytes, AddState, Rounds;
    var z: array<u64>, a: array<u64>, b: array<u64>, w: array<u64> := new u64[8], new u64[8], new u64[8], new u64[16];
    ghost var h := StateOf(x[..]);
    LoadState(x, z, a);
    var done := 0;
    assert m[0..] == m;
    while |m| - done >= 128
      invariant 0 <= done <= |m| && done % 128 == 0
      invariant z[..] == a[..] && |z[..]| == 8
      invariant HashBlocks(h, m) == HashBlocks(z[..], m[done..])
      decreases |m| - done
    {
      ghost var v: seq<int> := z[..];
      HashBlocksStep(v, m, done);
      CompressIs(v, m[done..done + 128]);
      EightyRounds(a, b, w, m[done..done + 128]);
      AddInto(a, z);
      done := done + 128;
    }
    HashBlocksDone(z[..], m[done..]);
    StoreState(x, z);
    left := |m| - done;
  }

  // ---- crypto_hash ----

  lemma {:induction false} HashBlocksConcat(h: seq<int>, m: seq<byte>, t: seq<byte>)
    requires |h| == 8 && |m| % 128 == 0
    ensures HashBlocks(h, m + t) == HashBlocks(HashBlocks(h, m), t)
    decreases |m|
  {
    hide Compress;
    if |m| < 128 {
      assert m + t == t;
    } else {
      assert (m + t)[..128] == m[..128] && (m + t)[128..] == m[128..] + t;
      HashBlocksConcat(Compress(h, m[..128]), m[128..], t);
    }
  }

  // Only whole blocks are absorbed.
  lemma {:induction false} HashBlocksWhole(h: seq<int>, m: seq<byte>)
    requires |h| == 8
    ensures HashBlocks(h, m) == HashBlocks(h, m[..|m| - |m| % 128])
    decreases |m|
  {
    hide Compress;
    var n := |m| - |m| % 128;
    if |m| >= 128 {
      HashBlocksWhole(Compress(h, m[..128]), m[128..]);
      assert m[..n][..128] == m[..128] && m[..n][128..] == m[128..][..n - 128];
    }
  }

  lemma EightBytes(s: seq<byte>)
    requires |s| == 8
    ensures Be(s) == ((((((s[0] as int * 256 + s[1] as int) * 256 + s[2] as int) * 256 + s[3] as int) * 256
      + s[4] as int) * 256 + s[5] as int) * 256 + s[6] as int) * 256 + s[7] as int
  {
    hide Be;
    BePrefix(s, 0); BePrefix(s, 1); BePrefix(s, 2); BePrefix(s, 3);
    BePrefix(s, 4); BePrefix(s, 5); BePrefix(s, 6); BePrefix(s, 7);
    BeEmpty(s[..0]);
    assert s[..8] == s;
  }

  lemma BePrefix(s: seq<byte>, k: nat)
    requires k < |s|
    ensures Be(s[..k + 1]) == Be(s[..k]) * 256 + s[k] as int
  {
    assert s[..k + 1][..k] == s[..k];
  }

  lemma BeEmpty(s: seq<byte>)
    requires s == []
    ensures Be(s) == 0
  {
  }

  // The last block or two: what is left of the message, a one bit, zeros, the bit length.
  ghost function Tail(m: seq<byte>): seq<byte>
  {
    m[|m| - |m| % 128..] + [0x80] + seq(PadZeros(|m|), i => 0) + BeBytes(8 * |m|, 16)
  }

  lemma PadSplit(m: seq<byte>)
    ensures Pad(m) == m[..|m| - |m| % 128] + Tail(m)
    ensures |Tail(m)| == 256 - 128 * (if |m| % 128 < 112 then 1 else 0)
  {
    hide BeBytes;
    var n := |m| - |m| % 128;
    assert m == m[..n] + m[n..];
  }

  lemma DigitShift(v: int, k: nat)
    ensures DigitOf(v, 256, k + 1) == DigitOf(v / 256, 256, k)
  {
    PowPositive(256, k);
    var p := Pow(256, k);
    assert Pow(256, k + 1) == 256 * p;
    DivDiv(v, 256, p);
  }

  lemma DigitZero(v: int)
    ensures DigitOf(v, 256, 0) == v % 256
  {
    assert Pow(256, 0) == 1;
  }

  lemma BeBytesSplit(v: int, len: nat)
    requires len > 0
    ensures BeBytes(v, len) == BeBytes(v / 256, len - 1) + [(v % 256) as byte]
  {
    hide DigitOf;
    forall i | 0 <= i < len - 1
      ensures BeBytes(v, len)[i] == BeBytes(v / 256, len - 1)[i]
    {
      DigitShift(v, len - 2 - i);
    }
    DigitZero(v);
    assert BeBytes(v, len)[len - 1] == DigitOf(v, 256, 0) as byte;
    assert BeBytes(v, len)[..len - 1] == BeBytes(v / 256, len - 1);
  }

  lemma {:induction false} BeOfBeBytes(v: int, len: nat)
    requires 0 <= v < Pow(256, len)
    ensures Be(BeBytes(v, len)) == v
    decreases len
  {
    hide BeBytes;
    if len > 0 {
      BeOfBeBytes(v / 256, len - 1);
      BeBytesSplit(v, len);
      assert BeBytes(v, len)[..len - 1] == BeBytes(v / 256, len - 1);
      ByteOfInt(v % 256);
    }
  }

  // The stored state is read back.
  lemma StateRoundTrip(h: seq<int>)
    requires |h| == 8 && forall i :: 0 <= i < 8 ==> 0 <= h[i] < M64
    ensures StateOf(StateBytes(h)) == h
  {
    hide BeBytes;
    assert Pow(256, 8) == M64;
    forall i | 0 <= i < 8
      ensures WordAt(StateBytes(h), i) == h[i]
    {
      StateSlice(h, i);
      BeOfBeBytes(h[i], 8);
    }
  }

  lemma {:induction false} HashBlocksRange(h: seq<int>, m: seq<byte>)
    requires |h| == 8 && forall i :: 0 <= i < 8 ==> 0 <= h[i] < M64
    ensures forall i :: 0 <= i < 8 ==> 0 <= HashBlocks(h, m)[i] < M64
    decreases |m|
  {
    hide Rounds;
    if |m| >= 128 {
      HashBlocksRange(Compress(h, m[..128]), m[128..]);
    }
  }

  lemma {:induction false} IvRowAt(n: nat, i: nat)
    requires i < n
    ensures IvRows(n)[8 * i..8 * i + 8] == IvRow(i)
  {
    hide IvRow;
    if i < n - 1 {
      IvRowAt(n - 1, i);
      assert IvRows(n)[8 * i..8 * i + 8] == IvRows(n - 1)[8 * i..8 * i + 8];
    }
  }

  lemma IvWord(i: nat)
    requires i < 8
    ensures Be(IvRow(i)) == H0[i]
  {
    hide Be;
    EightBytes(IvRow(i));
  }

  lemma IvIsH0()
    ensures |IV| == 64 && StateOf(IV) == H0
    ensures forall i :: 0 <= i < 8 ==> 0 <= H0[i] < M64
  {
    hide Be, IvRow, IvRows;
    forall i | 0 <= i < 8
      ensures WordAt(IV, i) == H0[i]
    {
      IvRowAt(8, i);
      IvWord(i);
    }
  }

  // ---- the length field ----

  lemma HighLengthDigit(n: nat, k: nat)
    requires n < M64 && k >= 9
    ensures DigitOf(8 * n, 256, k) == 0
  {
    assert Pow(256, 9) == 256 * M64;
    PowPositive(256, k - 9);
    PowAdd(256, 9, k - 9);
    MulMono(Pow(256, 9), 1, Pow(256, k - 9));
    DivModUnique(8 * n, Pow(256, k), 0, 8 * n);
  }

  lemma LowLengthDigit(n: nat, k: nat)
    requires n < M64 && k <= 8
    ensures k < 8 ==> DigitOf(8 * n, 256, k) == DigitOf(8 * n % M64, 256, k)
    ensures k == 8 ==> DigitOf(8 * n, 256, k) == n / 0x2000_0000_0000_0000
  {
    assert Pow(256, 8) == M64;
    if k < 8 {
      DigitOfMod(8 * n, 256, 8, k);
    }
  }

  lemma LengthBytes(n: nat)
    requires n < M64
    ensures forall i :: 0 <= i < 7 ==> BeBytes(8 * n, 16)[i] == 0
    ensures BeBytes(8 * n, 16)[7] == (n / 0x2000_0000_0000_0000) as byte
    ensures BeBytes(8 * n, 16)[8..] == BeBytes(8 * n % M64, 8)
  {
    hide DigitOf;
    forall i | 0 <= i < 7
      ensures BeBytes(8 * n, 16)[i] == 0
    {
      HighLengthDigit(n, 15 - i);
    }
    LowLengthDigit(n, 8);
    forall i | 0 <= i < 8
      ensures BeBytes(8 * n, 16)[8..][i] == BeBytes(8 * n % M64, 8)[i]
    {
      LowLengthDigit(n, 7 - i);
    }
  }

  // Message end, one bit, zeros, seven zero bytes of the length, its eighth byte, its low word.
  lemma Assemble(x: seq<byte>, a: seq<byte>, z: nat, top: byte, low: seq<byte>, n: nat)
    requires |low| == 8 && |a| + 17 + z == n <= |x|
    requires x[..|a|] == a && x[|a|] == 0x80 && x[n - 9] == top && x[n - 8..n] == low
    requires forall i :: |a| < i < n - 9 ==> x[i] == 0
    ensures x[..n] == a + [0x80] + seq(z, i => 0) + (seq(7, i => 0) + [top] + low)
  {
    var t := a + [0x80] + seq(z, i => 0) + (seq(7, i => 0) + [top] + low);
    forall i | 0 <= i < n
      ensures x[i] == t[i]
    {
      if i < |a| {
        assert x[i] == x[..|a|][i];
      } else if i >= n - 8 {
        assert x[i] == x[n - 8..n][i - (n - 8)];
      }
    }
  }

  lemma TailIs(m: seq<byte>)
    ensures Tail(m) == m[|m| - |m| % 128..] + [0x80] + seq(PadZeros(|m|), i => 0) + BeBytes(8 * |m|, 16)
  {
  }

  lemma TailZeros(n: nat)
    ensures n % 128 + 17 + PadZeros(n) == 256 - 128 * (if n % 128 < 112 then 1 else 0)
  {
  }

  lemma TailAt(m: seq<byte>, x: seq<byte>)
    requires |m| < M64
    requires var left, n := |m| % 128, 256 - 128 * (if |m| % 128 < 112 then 1 else 0);
      && |x| >= n && x[..left] == m[|m| - left..] && x[left] == 0x80
      && (forall i :: left < i < n - 9 ==> x[i] == 0)
      && x[n - 9] == (|m| / 0x2000_0000_0000_0000) as byte && x[n - 8..n] == BeBytes(8 * |m| % M64, 8)
    ensures x[..256 - 128 * (if |m| % 128 < 112 then 1 else 0)] == Tail(m)
  {
    hide BeBytes, PadZeros, Tail;
    TailIs(m);
    var left, n := |m| % 128, 256 - 128 * (if |m| % 128 < 112 then 1 else 0);
    var b := BeBytes(8 * |m|, 16);
    LengthBytes(|m|);
    assert b == b[..7] + [b[7]] + b[8..] && b[..7] == seq(7, i => 0 as byte);
    TailZeros(|m|);
    Assemble(x, m[|m| - left..], PadZeros(|m|), b[7], b[8..], n);
  }

  method FillTail(x: array<byte>, m: seq<byte>) returns (n: nat)
    requires x.Length == 256 && |m| < M64
    modifies x
    ensures n <= 256 && x[..n] == Tail(m)
  {
    hide Tail, BeBytes;
    var left := |m| % 128;
    var i := 0;
    while i < 256
      invariant 0 <= i <= 256
      invariant forall j :: 0 <= j < i ==> x[j] == 0
    {
      x[i] := 0;
      i := i + 1;
    }
    i := 0;
    while i < left
      invariant 0 <= i <= left
      invariant forall j :: 0 <= j < i ==> x[j] == m[|m| - left + j]
      invariant forall j :: left <= j < 256 ==> x[j] == 0
    {
      x[i] := m[|m| - left + i];
      i := i + 1;
    }
    x[left] := 128;
    n := 256 - 128 * (if left < 112 then 1 else 0);
    x[n - 9] := (|m| / 0x2000_0000_0000_0000) as byte;
    Ts64(x, n - 8, 8 * |m| % M64);
    assert x[n - 8..n - 8 + 8] == x[n - 8..n] && x[..left] == m[|m| - left..];
    TailAt(m, x[..]);
  }

  // Hashing the whole blocks, storing and reloading the state, then hashing the tail.
  lemma HashIs(m: seq<byte>, t: seq<byte>)
    requires t == Tail(m)
    ensures StateBytes(HashBlocks(StateOf(StateBytes(HashBlocks(H0, m))), t)) == Sha512(m)
  {
    hide HashBlocks, StateOf, StateBytes, Tail, H0;
    IvIsH0();
    HashBlocksRange(H0, m);
    StateRoundTrip(HashBlocks(H0, m));
    PadSplit(m);
    HashBlocksWhole(H0, m);
    HashBlocksConcat(H0, m[..|m| - |m| % 128], t);
  }

  /** out = SHA-512(m). */
  method CryptoHash(out: array<byte>, m: seq<byte>)
    requires out.Length == 64 && |m| < M64
    modifies out
    ensures out[..] == Sha512(m)
  {
    hide HashBlocks, StateOf, StateBytes, Tail, Pad, Sha512, IV, H0;
    IvIsH0();
    var h, x := new byte[64], new byte[256];
    var i := 0;
    while i < 64
      invariant 0 <= i <= 64
      invariant forall j :: 0 <= j < i ==> h[j] == IV[j]
    {
      h[i] := IV[i];
      i := i + 1;
    }
    assert h[..] == IV;
    var left := CryptoHashblocks(h, m);
    var n := FillTail(x, m);
    ghost var t := x[..n];
    var none := CryptoHashblocks(h, x[..n]);
    HashIs(m, t);
    i := 0;
    while i < 64
      invariant 0 <= i <= 64
      invariant h[..] == Sha512(m)
      invariant forall j :: 0 <= j < i ==> out[j] == h[j]
    {
      out[i] := h[i];
      i := i + 1;
    }
  }
}
