/** SHA-512 of "abc", the one-block example of the Secure Hash Standard. */
module Sha512Vector {
  import opened Arith
  import opened Limbs
  import opened Bits
  import opened Sha512
  import opened Sha512Words

  // Four words of a sequence.
  datatype Four = Four(w0: bv64, w1: bv64, w2: bv64, w3: bv64)

  // The numbers at 4r and after.
  ghost predicate Row(x: nat -> int, r: nat, f: Four)
  {
    x(4 * r) == N(f.w0) && x(4 * r + 1) == N(f.w1) && x(4 * r + 2) == N(f.w2) && x(4 * r + 3) == N(f.w3)
  }

  // Rows r to r + 3.
  ghost predicate FourRows(x: nat -> int, r: nat, o: Four, p: Four, q: Four, s: Four)
  {
    && Row(x, r, o) && Row(x, r + 1, p)
    && Row(x, r + 2, q) && Row(x, r + 3, s)
  }

  lemma RowsOf(x: nat -> int, r: nat, o: Four, p: Four, q: Four, s: Four)
    requires FourRows(x, r, o, p, q, s)
    ensures Row(x, r, o) && Row(x, r + 1, p)
    ensures Row(x, r + 2, q) && Row(x, r + 3, s)
  {
    hide Row;
  }

  // ---- the constants ----

  const K0 := Four(0x428a_2f98_d728_ae22, 0x7137_4491_23ef_65cd, 0xb5c0_fbcf_ec4d_3b2f, 0xe9b5_dba5_8189_dbbc)
  const K1 := Four(0x3956_c25b_f348_b538, 0x59f1_11f1_b605_d019, 0x923f_82a4_af19_4f9b, 0xab1c_5ed5_da6d_8118)
  const K2 := Four(0xd807_aa98_a303_0242, 0x1283_5b01_4570_6fbe, 0x2431_85be_4ee4_b28c, 0x550c_7dc3_d5ff_b4e2)
  const K3 := Four(0x72be_5d74_f27b_896f, 0x80de_b1fe_3b16_96b1, 0x9bdc_06a7_25c7_1235, 0xc19b_f174_cf69_2694)
  const K4 := Four(0xe49b_69c1_9ef1_4ad2, 0xefbe_4786_384f_25e3, 0x0fc1_9dc6_8b8c_d5b5, 0x240c_a1cc_77ac_9c65)
  const K5 := Four(0x2de9_2c6f_592b_0275, 0x4a74_84aa_6ea6_e483, 0x5cb0_a9dc_bd41_fbd4, 0x76f9_88da_8311_53b5)
  const K6 := Four(0x983e_5152_ee66_dfab, 0xa831_c66d_2db4_3210, 0xb003_27c8_98fb_213f, 0xbf59_7fc7_beef_0ee4)
  const K7 := Four(0xc6e0_0bf3_3da8_8fc2, 0xd5a7_9147_930a_a725, 0x06ca_6351_e003_826f, 0x1429_2967_0a0e_6e70)
  const K8 := Four(0x27b7_0a85_46d2_2ffc, 0x2e1b_2138_5c26_c926, 0x4d2c_6dfc_5ac4_2aed, 0x5338_0d13_9d95_b3df)
  const K9 := Four(0x650a_7354_8baf_63de, 0x766a_0abb_3c77_b2a8, 0x81c2_c92e_47ed_aee6, 0x9272_2c85_1482_353b)
  const K10 := Four(0xa2bf_e8a1_4cf1_0364, 0xa81a_664b_bc42_3001, 0xc24b_8b70_d0f8_9791, 0xc76c_51a3_0654_be30)
  const K11 := Four(0xd192_e819_d6ef_5218, 0xd699_0624_5565_a910, 0xf40e_3585_5771_202a, 0x106a_a070_32bb_d1b8)
  const K12 := Four(0x19a4_c116_b8d2_d0c8, 0x1e37_6c08_5141_ab53, 0x2748_774c_df8e_eb99, 0x34b0_bcb5_e19b_48a8)
  const K13 := Four(0x391c_0cb3_c5c9_5a63, 0x4ed8_aa4a_e341_8acb, 0x5b9c_ca4f_7763_e373, 0x682e_6ff3_d6b2_b8a3)
  const K14 := Four(0x748f_82ee_5def_b2fc, 0x78a5_636f_4317_2f60, 0x84c8_7814_a1f0_ab72, 0x8cc7_0208_1a64_39ec)
  const K15 := Four(0x90be_fffa_2363_1e28, 0xa450_6ceb_de82_bde9, 0xbef9_a3f7_b2c6_7915, 0xc671_78f2_e372_532b)
  const K16 := Four(0xca27_3ece_ea26_619c, 0xd186_b8c7_21c0_c207, 0xeada_7dd6_cde0_eb1e, 0xf57d_4f7f_ee6e_d178)
  const K17 := Four(0x06f0_67aa_7217_6fba, 0x0a63_7dc5_a2c8_98a6, 0x113f_9804_bef9_0dae, 0x1b71_0b35_131c_471b)
  const K18 := Four(0x28db_77f5_2304_7d84, 0x32ca_ab7b_40c7_2493, 0x3c9e_be0a_15c9_bebc, 0x431d_67c4_9c10_0d4c)
  const K19 := Four(0x4cc5_d4be_cb3e_42b6, 0x597f_299c_fc65_7e2a, 0x5fcb_6fab_3ad6_faec, 0x6c44_198c_4a47_5817)

  function KAt(t: nat): int
  {
    KLength();
    if t < 80 then K[t] else 0
  }

  predicate SameRow(r: nat, f: Four)
  {
    && Weighed(f.w0) == KRow(r)[0] && Weighed(f.w1) == KRow(r)[1]
    && Weighed(f.w2) == KRow(r)[2] && Weighed(f.w3) == KRow(r)[3]
  }

  lemma KRowIs(r: nat, f: Four)
    requires r < 20 && SameRow(r, f)
    ensures Row(KAt, r, f)
  {
    hide N, Weighed, KRow, K;
    KLength();
    ThisK(4 * r);
    ThisK(4 * r + 1);
    ThisK(4 * r + 2);
    ThisK(4 * r + 3);
    WeighedIs(f.w0);
    WeighedIs(f.w1);
    WeighedIs(f.w2);
    WeighedIs(f.w3);
  }

  lemma ThisK(t: nat)
    requires t < 80
    ensures |K| == 80 && K[t] == KRow(t / 4)[t % 4]
  {
    hide KRow, KRows;
    KRowsAt(20, t);
  }

  lemma Constants0()
    ensures SameRow(0, K0) && SameRow(1, K1)
  {
  }

  lemma Constants2()
    ensures SameRow(2, K2) && SameRow(3, K3)
  {
  }

  lemma Constants4()
    ensures SameRow(4, K4) && SameRow(5, K5)
  {
  }

  lemma Constants6()
    ensures SameRow(6, K6) && SameRow(7, K7)
  {
  }

  lemma Constants8()
    ensures SameRow(8, K8) && SameRow(9, K9)
  {
  }

  lemma Constants10()
    ensures SameRow(10, K10) && SameRow(11, K11)
  {
  }

  lemma Constants12()
    ensures SameRow(12, K12) && SameRow(13, K13)
  {
  }

  lemma Constants14()
    ensures SameRow(14, K14) && SameRow(15, K15)
  {
  }

  lemma Constants16()
    ensures SameRow(16, K16) && SameRow(17, K17)
  {
  }

  lemma Constants18()
    ensures SameRow(18, K18) && SameRow(19, K19)
  {
  }

  lemma AllK0()
    ensures FourRows(KAt, 0, K0, K1, K2, K3)
  {
    hide SameRow, Row;
    Constants0();
    Constants2();
    KRowIs(0, K0);
    KRowIs(1, K1);
    KRowIs(2, K2);
    KRowIs(3, K3);
  }

  lemma AllK4()
    ensures FourRows(KAt, 4, K4, K5, K6, K7)
  {
    hide SameRow, Row;
    Constants4();
    Constants6();
    KRowIs(4, K4);
    KRowIs(5, K5);
    KRowIs(6, K6);
    KRowIs(7, K7);
  }

  lemma AllK8()
    ensures FourRows(KAt, 8, K8, K9, K10, K11)
  {
    hide SameRow, Row;
    Constants8();
    Constants10();
    KRowIs(8, K8);
    KRowIs(9, K9);
    KRowIs(10, K10);
    KRowIs(11, K11);
  }

  lemma AllK12()
    ensures FourRows(KAt, 12, K12, K13, K14, K15)
  {
    hide SameRow, Row;
    Constants12();
    Constants14();
    KRowIs(12, K12);
    KRowIs(13, K13);
    KRowIs(14, K14);
    KRowIs(15, K15);
  }

  lemma AllK16()
    ensures FourRows(KAt, 16, K16, K17, K18, K19)
  {
    hide SameRow, Row;
    Constants16();
    Constants18();
    KRowIs(16, K16);
    KRowIs(17, K17);
    KRowIs(18, K18);
    KRowIs(19, K19);
  }

  // ---- the schedule ----

  const W0 := Four(0x6162_6380_0000_0000, 0, 0, 0)
  const W1 := Four(0, 0, 0, 0)
  const W2 := Four(0, 0, 0, 0)
  const W3 := Four(0, 0, 0, 0x0000_0000_0000_0018)
  const W4 := Four(0x6162_6380_0000_0000, 0x0003_0000_0000_00c0, 0x0a96_99a2_4c70_0003, 0x0000_0c00_6000_0603)
  const W5 := Four(0x549e_f626_3985_8996, 0x00c0_0033_0000_3c00, 0x1497_007a_8a0e_9dbc, 0x62e5_6500_cc07_80f0)
  const W6 := Four(0x7760_dd47_5a53_8797, 0xf155_4b71_1c1c_0003, 0xca29_93a4_345d_9ff2, 0x5e0e_66b5_c783_dd32)
  const W7 := Four(0xe25a_625d_0049_4b62, 0x9f44_486f_b1e4_fbd2, 0xb31b_8c2b_0608_5f2f, 0x0e98_7660_9341_42f6)
  const W8 := Four(0xa4af_2cfd_09fb_b924, 0xad28_9e2e_0bd5_3186, 0x3c74_563a_a2f9_673e, 0x6ccd_cd14_cc14_b53f)
  const W9 := Four(0xc3f9_25b3_37f2_2bde, 0x5bcc_77a7_5ad9_5b54, 0x3ec2_257a_dca0_9a52, 0x2824_6960_001f_c5eb)
  const W10 := Four(0x04e3_3a75_ce2b_e88a, 0x7d53_14b3_c359_e0e7, 0xaef7_a285_ff25_1266, 0x0b84_7258_1dee_a04f)
  const W11 := Four(0xb174_e26e_ddc7_b033, 0x5d63_bae5_8ddd_88de, 0x4c04_4007_b744_ccbb, 0xe6a9_aa4d_74dc_7d43)
  const W12 := Four(0xebea_f123_7248_019c, 0x361e_80b2_d00f_3193, 0x2e98_3912_5df3_b175, 0x3319_6292_93ad_5363)
  const W13 := Four(0x9cbc_5d89_ac1b_89d5, 0x275e_23ff_eeca_50b7, 0x3b80_d680_bf69_ef58, 0x0d06_9693_3945_a125)
  const W14 := Four(0x7533_eabc_b786_ff00, 0xb898_26ce_e6fb_f0e5, 0x249b_4fbc_ad62_3e9f, 0x4aea_9df2_b02d_6f1e)
  const W15 := Four(0x2cc5_7475_a55e_8d8f, 0xb257_4ae9_38d8_be89, 0xc1b3_5a57_b16d_6aea, 0xcc49_18b5_9492_06bb)
  const W16 := Four(0x5099_c3ad_d79f_90ec, 0x5ea8_1d78_e766_0bf1, 0xebee_6267_405a_c2a9, 0xb01f_2192_6108_a4ab)
  const W17 := Four(0x7864_33dd_2fe6_5556, 0xc54a_6eaa_24a0_552c, 0xb3c8_f153_0bdb_aa9e, 0xbb8a_bfe5_6f46_9338)
  const W18 := Four(0xf63d_4265_cc1c_5a78, 0xbe83_55ea_7312_9afb, 0x49e2_db8e_bdcf_beb5, 0x8226_9d4a_883a_3d99)
  const W19 := Four(0xfdf5_3df3_011f_362b, 0x464a_f567_1d71_c12e, 0xe449_b681_98ec_611c, 0x92ae_eed1_a7bc_f7d2)

  function NextFour(o: Four, p: Four, q: Four, s: Four): Four
  {
    var a, b := Scheduled(s.w2, q.w1, o.w1, o.w0), Scheduled(s.w3, q.w2, o.w2, o.w1);
    Four(a, b, Scheduled(a, q.w3, o.w3, o.w2), Scheduled(b, s.w0, p.w0, o.w3))
  }

  lemma Schedule4()
    ensures NextFour(W0, W1, W2, W3) == W4
    ensures NextFour(W1, W2, W3, W4) == W5
    ensures NextFour(W2, W3, W4, W5) == W6
    ensures NextFour(W3, W4, W5, W6) == W7
  {
  }

  lemma Schedule8()
    ensures NextFour(W4, W5, W6, W7) == W8
    ensures NextFour(W5, W6, W7, W8) == W9
    ensures NextFour(W6, W7, W8, W9) == W10
    ensures NextFour(W7, W8, W9, W10) == W11
  {
  }

  lemma Schedule12()
    ensures NextFour(W8, W9, W10, W11) == W12
    ensures NextFour(W9, W10, W11, W12) == W13
    ensures NextFour(W10, W11, W12, W13) == W14
    ensures NextFour(W11, W12, W13, W14) == W15
  {
  }

  lemma Schedule16()
    ensures NextFour(W12, W13, W14, W15) == W16
    ensures NextFour(W13, W14, W15, W16) == W17
    ensures NextFour(W14, W15, W16, W17) == W18
    ensures NextFour(W15, W16, W17, W18) == W19
  {
  }

  // x is the schedule of block m, word by word.
  ghost predicate Agrees(m: seq<byte>, x: nat -> int)
    requires |m| == 128
  {
    forall t: nat :: SameWord(m, x, t)
  }

  ghost predicate SameWord(m: seq<byte>, x: nat -> int, t: nat)
    requires |m| == 128
  {
    Schedule(m, t) == x(t)
  }

  lemma NextWord(m: seq<byte>, x: nat -> int, t: nat, w2: bv64, w7: bv64, w15: bv64, w16: bv64)
    requires |m| == 128 && Agrees(m, x)
    requires t >= 16 && x(t - 2) == N(w2) && x(t - 7) == N(w7) && x(t - 15) == N(w15) && x(t - 16) == N(w16)
    ensures x(t) == N(Scheduled(w2, w7, w15, w16))
  {
    hide N, Schedule, Scheduled, LowerSigma0, LowerSigma1;
    assert SameWord(m, x, t) && SameWord(m, x, t - 2) && SameWord(m, x, t - 7);
    assert SameWord(m, x, t - 15) && SameWord(m, x, t - 16);
    ScheduleStep(m, t);
    ScheduledIs(w2, w7, w15, w16);
  }

  lemma NextRow(m: seq<byte>, x: nat -> int, r: nat, o: Four, p: Four, q: Four, s: Four)
    requires |m| == 128 && Agrees(m, x)
    requires r >= 4 && Row(x, r - 4, o) && Row(x, r - 3, p) && Row(x, r - 2, q) && Row(x, r - 1, s)
    ensures Row(x, r, NextFour(o, p, q, s))
  {
    hide *;
    RowIs(x, r - 4, o);
    RowIs(x, r - 3, p);
    RowIs(x, r - 2, q);
    RowIs(x, r - 1, s);
    NextFourIs(o, p, q, s);
    var t := NextFour(o, p, q, s);
    NextWord(m, x, 4 * r, s.w2, q.w1, o.w1, o.w0);
    NextWord(m, x, 4 * r + 1, s.w3, q.w2, o.w2, o.w1);
    NextWord(m, x, 4 * r + 2, t.w0, q.w3, o.w3, o.w2);
    NextWord(m, x, 4 * r + 3, t.w1, s.w0, p.w0, o.w3);
    RowIs(x, r, t);
  }

  lemma RowIs(x: nat -> int, r: nat, f: Four)
    ensures Row(x, r, f) <==>
      x(4 * r) == N(f.w0) && x(4 * r + 1) == N(f.w1) && x(4 * r + 2) == N(f.w2) && x(4 * r + 3) == N(f.w3)
  {
    hide N;
  }

  lemma NextFourIs(o: Four, p: Four, q: Four, s: Four)
    ensures var t := NextFour(o, p, q, s);
      && t.w0 == Scheduled(s.w2, q.w1, o.w1, o.w0) && t.w1 == Scheduled(s.w3, q.w2, o.w2, o.w1)
      && t.w2 == Scheduled(t.w0, q.w3, o.w3, o.w2) && t.w3 == Scheduled(t.w1, s.w0, p.w0, o.w3)
  {
    hide Scheduled;
  }

  lemma NextRows(m: seq<byte>, x: nat -> int, r: nat,
                 o: Four, p: Four, q: Four, s: Four, t: Four, u: Four, v: Four, z: Four)
    requires |m| == 128 && Agrees(m, x) && FourRows(x, r, o, p, q, s)
    requires NextFour(o, p, q, s) == t && NextFour(p, q, s, t) == u
    requires NextFour(q, s, t, u) == v && NextFour(s, t, u, v) == z
    ensures FourRows(x, r + 4, t, u, v, z)
  {
    hide Agrees, Row, NextFour;
    NextRow(m, x, r + 4, o, p, q, s);
    NextRow(m, x, r + 5, p, q, s, t);
    NextRow(m, x, r + 6, q, s, t, u);
    NextRow(m, x, r + 7, s, t, u, v);
  }

  // ---- the rounds ----


  const S0 := State(
    0x6a09_e667_f3bc_c908, 0xbb67_ae85_84ca_a73b, 0x3c6e_f372_fe94_f82b, 0xa54f_f53a_5f1d_36f1,
    0x510e_527f_ade6_82d1, 0x9b05_688c_2b3e_6c1f, 0x1f83_d9ab_fb41_bd6b, 0x5be0_cd19_137e_2179)

  const S1 := State(
    0x0ae0_7c86_b118_1c75, 0xfa96_7eed_85a0_8028, 0x4424_9631_255d_2ca0, 0x5e41_2143_8818_6c14,
    0xa77b_7c03_5dd4_c161, 0x874b_fe5f_6aae_9f2f, 0x860a_cf9e_ffba_6f61, 0xcdf3_bff2_883f_c9d9)

  const S2 := State(
    0xff4d_3f1f_0d46_a736, 0x4c4f_bbb7_5f18_73a6, 0x74bf_40f8_6909_4c63, 0xe623_4909_0f47_d30a,
    0x3cd3_88e1_19e8_162e, 0x73e0_25d9_1b9e_fea3, 0xf0ae_c2fe_1437_f085, 0x0fcd_f997_10f2_1584)

  const S3 := State(
    0x6b69_fc1b_b482_feac, 0xf61e_6726_94de_2d67, 0x021f_badb_abab_5ac6, 0xc47c_9d5c_7ea8_a234,
    0x3526_4334_c03a_c8ad, 0xc6bc_3574_0d8d_aa9a, 0xe95c_2a57_572d_64d9, 0x858d_832a_e0e8_911c)

  const S4 := State(
    0xab44_e862_7647_8d85, 0xa81d_edbb_9f19_e643, 0xcfcd_928c_5424_e2b6, 0x3857_dfd2_fc37_d3ba,
    0xcd88_1ee5_9ca6_bc53, 0x8405_8865_d60a_05fa, 0x09ae_e5bd_a164_4de5, 0xa6af_4e9c_9f80_7e51)

  const S5 := State(
    0x73a5_4f39_9fa4_b1b2, 0x10d9_c4c4_2955_99f6, 0xd678_06db_8b14_8677, 0x654e_f9ab_ec38_9ca9,
    0xd084_46aa_7969_3ed7, 0x9bb4_d397_78c0_7f9e, 0x25c9_6a77_68fb_2aa3, 0xceb9_fc36_91ce_8326)

  function FourRounds(v: State, k: Four, w: Four): State
  {
    RoundWords(RoundWords(RoundWords(RoundWords(v, k.w0, w.w0), k.w1, w.w1), k.w2, w.w2), k.w3, w.w3)
  }

  function Sixteen(v: State, k: Four, k1: Four, k2: Four, k3: Four, w: Four, w1: Four, w2: Four, w3: Four): State
  {
    FourRounds(FourRounds(FourRounds(FourRounds(v, k, w), k1, w1), k2, w2), k3, w3)
  }

  lemma Rounds0()
    ensures Sixteen(S0, K0, K1, K2, K3, W0, W1, W2, W3) == S1
  {
  }

  lemma Rounds1()
    ensures Sixteen(S1, K4, K5, K6, K7, W4, W5, W6, W7) == S2
  {
  }

  lemma Rounds2()
    ensures Sixteen(S2, K8, K9, K10, K11, W8, W9, W10, W11) == S3
  {
  }

  lemma Rounds3()
    ensures Sixteen(S3, K12, K13, K14, K15, W12, W13, W14, W15) == S4
  {
  }

  lemma Rounds4()
    ensures Sixteen(S4, K16, K17, K18, K19, W16, W17, W18, W19) == S5
  {
  }

  lemma NextRounds(h: seq<int>, m: seq<byte>, x: nat -> int, r: nat, v: State, k: Four, w: Four)
    requires |h| == 8 && |m| == 128 && Agrees(m, x) && r < 20 && |K| == 80
    requires Rounds(h, m, 4 * r) == NumbersOf(v) && Row(KAt, r, k) && Row(x, r, w)
    ensures Rounds(h, m, 4 * r + 4) == NumbersOf(FourRounds(v, k, w))
  {
    hide N, NumbersOf, Rounds, Round, RoundWords, Schedule, K;
    assert SameWord(m, x, 4 * r) && SameWord(m, x, 4 * r + 1) && SameWord(m, x, 4 * r + 2);
    assert SameWord(m, x, 4 * r + 3);
    RoundsStep(h, m, 4 * r);
    RoundsStep(h, m, 4 * r + 1);
    RoundsStep(h, m, 4 * r + 2);
    RoundsStep(h, m, 4 * r + 3);
    var v1 := RoundWords(v, k.w0, w.w0);
    var v2 := RoundWords(v1, k.w1, w.w1);
    var v3 := RoundWords(v2, k.w2, w.w2);
    RoundWordsIs(v, k.w0, w.w0);
    RoundWordsIs(v1, k.w1, w.w1);
    RoundWordsIs(v2, k.w2, w.w2);
    RoundWordsIs(v3, k.w3, w.w3);
  }

  lemma SixteenIs(v: State, k: Four, k1: Four, k2: Four, k3: Four, w: Four, w1: Four, w2: Four, w3: Four)
    ensures Sixteen(v, k, k1, k2, k3, w, w1, w2, w3)
         == FourRounds(FourRounds(FourRounds(FourRounds(v, k, w), k1, w1), k2, w2), k3, w3)
  {
    hide FourRounds;
  }

  lemma NextSixteen(h: seq<int>, m: seq<byte>, x: nat -> int, r: nat, v: State,
                    k: Four, k1: Four, k2: Four, k3: Four, w: Four, w1: Four, w2: Four, w3: Four)
    requires |h| == 8 && |m| == 128 && Agrees(m, x) && r < 17 && |K| == 80
    requires Rounds(h, m, 4 * r) == NumbersOf(v) && FourRows(KAt, r, k, k1, k2, k3) && FourRows(x, r, w, w1, w2, w3)
    ensures Rounds(h, m, 4 * r + 16) == NumbersOf(Sixteen(v, k, k1, k2, k3, w, w1, w2, w3))
  {
    hide *;
    RowsOf(KAt, r, k, k1, k2, k3);
    RowsOf(x, r, w, w1, w2, w3);
    SixteenIs(v, k, k1, k2, k3, w, w1, w2, w3);
    var v1 := FourRounds(v, k, w);
    var v2 := FourRounds(v1, k1, w1);
    var v3 := FourRounds(v2, k2, w2);
    NextRounds(h, m, x, r, v, k, w);
    NextRounds(h, m, x, r + 1, v1, k1, w1);
    NextRounds(h, m, x, r + 2, v2, k2, w2);
    NextRounds(h, m, x, r + 3, v3, k3, w3);
  }

  /** Four rows of constants, four of the schedule, sixteen rounds at a time. */
  lemma AllEighty(h: seq<int>, m: seq<byte>, x: nat -> int)
    requires |h| == 8 && |m| == 128 && Agrees(m, x) && |K| == 80 && h == NumbersOf(S0)
    requires FourRows(x, 0, W0, W1, W2, W3)
    ensures Rounds(h, m, 80) == NumbersOf(S5)
  {
    hide *;
    RoundsZero(h, m);
    AllK0();
    Rounds0();
    NextSixteen(h, m, x, 0, S0, K0, K1, K2, K3, W0, W1, W2, W3);
    Schedule4();
    NextRows(m, x, 0, W0, W1, W2, W3, W4, W5, W6, W7);
    AllK4();
    Rounds1();
    NextSixteen(h, m, x, 4, S1, K4, K5, K6, K7, W4, W5, W6, W7);
    Schedule8();
    NextRows(m, x, 4, W4, W5, W6, W7, W8, W9, W10, W11);
    AllK8();
    Rounds2();
    NextSixteen(h, m, x, 8, S2, K8, K9, K10, K11, W8, W9, W10, W11);
    Schedule12();
    NextRows(m, x, 8, W8, W9, W10, W11, W12, W13, W14, W15);
    AllK12();
    Rounds3();
    NextSixteen(h, m, x, 12, S3, K12, K13, K14, K15, W12, W13, W14, W15);
    Schedule16();
    NextRows(m, x, 12, W12, W13, W14, W15, W16, W17, W18, W19);
    AllK16();
    Rounds4();
    NextSixteen(h, m, x, 16, S4, K16, K17, K18, K19, W16, W17, W18, W19);
  }

  // ---- the padded message ----

  const ABC: seq<byte> := [0x61, 0x62, 0x63]

  lemma LengthDigits(i: nat)
    requires i < 16
    ensures BeBytes(24, 16)[i] == if i == 15 then 24 else 0
  {
    var k := 15 - i;
    if k == 0 {
      DigitZero(24);
    } else {
      PowPositive(256, k - 1);
      assert Pow(256, k) == 256 * Pow(256, k - 1);
      assert BeBytes(24, 16)[i] == DigitOf(24, 256, k) as byte;
      DivModUnique(24, Pow(256, k), 0, 24);
    }
  }

  lemma Padded(i: nat)
    requires i < 128
    ensures |Pad(ABC)| == 128
    ensures Pad(ABC)[i] ==
      if i == 0 then 0x61 else if i == 1 then 0x62 else if i == 2 then 0x63 else if i == 3 then 0x80
      else if i == 127 then 24 else 0
  {
    hide BeBytes;
    if i >= 112 {
      LengthDigits(i - 112);
    }
  }

  // Word t of the message.
  function MessageWord(t: nat): bv64 { if t == 0 then 0x6162_6380_0000_0000 else if t == 15 then 24 else 0 }

  lemma MessageBytes(t: nat, j: nat)
    requires t < 16 && j < 8
    ensures |Pad(ABC)| == 128 && Pad(ABC)[8 * t + j] == BytesOf(MessageWord(t))[j]
  {
    hide Pad;
    Padded(8 * t + j);
  }

  lemma MessageWordIs(t: nat)
    requires t < 16
    ensures |Pad(ABC)| == 128 && Schedule(Pad(ABC), t) == N(MessageWord(t))
  {
    hide N, Pad, BytesOf, MessageWord, Be;
    MessageBytes(t, 0);
    var m, w := Pad(ABC), MessageWord(t);
    forall j | 0 <= j < 8
      ensures m[8 * t..8 * t + 8][j] == BytesOf(w)[j]
    {
      MessageBytes(t, j);
    }
    assert m[8 * t..8 * t + 8] == BytesOf(w);
    BytesAre(w);
  }

  lemma MessageRow(x: nat -> int, r: nat, f: Four)
    requires |Pad(ABC)| == 128 && Agrees(Pad(ABC), x) && r < 4
    requires f == Four(MessageWord(4 * r), MessageWord(4 * r + 1), MessageWord(4 * r + 2), MessageWord(4 * r + 3))
    ensures Row(x, r, f)
  {
    hide N, Pad, Schedule, MessageWord;
    MessageWordIs(4 * r);
    MessageWordIs(4 * r + 1);
    MessageWordIs(4 * r + 2);
    MessageWordIs(4 * r + 3);
    assert SameWord(Pad(ABC), x, 4 * r) && SameWord(Pad(ABC), x, 4 * r + 1);
    assert SameWord(Pad(ABC), x, 4 * r + 2) && SameWord(Pad(ABC), x, 4 * r + 3);
  }

  lemma MessageRows(x: nat -> int)
    requires |Pad(ABC)| == 128 && Agrees(Pad(ABC), x)
    ensures FourRows(x, 0, W0, W1, W2, W3)
  {
    hide Row, Agrees, Pad;
    MessageRow(x, 0, W0);
    MessageRow(x, 1, W1);
    MessageRow(x, 2, W2);
    MessageRow(x, 3, W3);
  }

  lemma StartIs()
    ensures H0 == NumbersOf(S0)
  {
    hide N;
    WeighedIs(S0.a);
    WeighedIs(S0.b);
    WeighedIs(S0.c);
    WeighedIs(S0.d);
    WeighedIs(S0.e);
    WeighedIs(S0.f);
    WeighedIs(S0.g);
    WeighedIs(S0.h);
  }

  // ---- the digest ----

  function DigestRow(i: nat): (s: seq<byte>)
    ensures |s| == 8
  {
    match i
    case 0 => [0xdd, 0xaf, 0x35, 0xa1, 0x93, 0x61, 0x7a, 0xba]
    case 1 => [0xcc, 0x41, 0x73, 0x49, 0xae, 0x20, 0x41, 0x31]
    case 2 => [0x12, 0xe6, 0xfa, 0x4e, 0x89, 0xa9, 0x7e, 0xa2]
    case 3 => [0x0a, 0x9e, 0xee, 0xe6, 0x4b, 0x55, 0xd3, 0x9a]
    case 4 => [0x21, 0x92, 0x99, 0x2a, 0x27, 0x4f, 0xc1, 0xa8]
    case 5 => [0x36, 0xba, 0x3c, 0x23, 0xa3, 0xfe, 0xeb, 0xbd]
    case 6 => [0x45, 0x4d, 0x44, 0x23, 0x64, 0x3c, 0xe8, 0x0e]
    case _ => [0x2a, 0x9a, 0xc9, 0x4f, 0xa5, 0x4c, 0xa4, 0x9f]
  }

  function StateWord(v: State, i: nat): bv64
  {
    match i
    case 0 => v.a
    case 1 => v.b
    case 2 => v.c
    case 3 => v.d
    case 4 => v.e
    case 5 => v.f
    case 6 => v.g
    case _ => v.h
  }

  lemma NumberAt(v: State, i: nat)
    requires i < 8
    ensures NumbersOf(v)[i] == N(StateWord(v, i))
  {
    hide N;
    match i
    case 0 => case 1 => case 2 => case 3 => case 4 => case 5 => case 6 => case _ =>
  }

  lemma DigestWord(i: nat)
    requires i < 8
    ensures BytesOf(Sum2(StateWord(S5, i), StateWord(S0, i))) == DigestRow(i)
  {
  }

  lemma DigestBytes(i: nat, v: seq<int>, h: seq<int>, r: seq<int>)
    requires i < 8 && v == NumbersOf(S5) && h == NumbersOf(S0) && r == AddState(v, h)
    ensures StateBytes(r)[8 * i..8 * i + 8] == DigestRow(i)
  {
    hide *;
    StateSlice(r, i);
    NumberAt(S5, i);
    NumberAt(S0, i);
    Added(v, h, i);
    Sum2Is(StateWord(S5, i), StateWord(S0, i));
    BytesAre(Sum2(StateWord(S5, i), StateWord(S0, i)));
    DigestWord(i);
  }

  lemma Added(v: seq<int>, h: seq<int>, i: nat)
    requires |v| == |h| && i < |v|
    ensures AddState(v, h)[i] == (v[i] + h[i]) % M64
  {
  }

  lemma OneBlock(m: seq<byte>)
    requires |Pad(m)| == 128
    ensures |K| == 80 && Sha512.Sha512(m) == StateBytes(AddState(Rounds(H0, Pad(m), 80), H0))
  {
    hide Pad, Rounds, AddState, StateBytes, K;
    KLength();
    var p := Pad(m);
    assert p[..128] == p && p[128..] == [];
    HashBlocksDone(Compress(H0, p), []);
  }

  /** The digest of the standard's example. */
  lemma AbcDigest()
    ensures forall i :: 0 <= i < 8 ==> Sha512.Sha512(ABC)[8 * i..8 * i + 8] == DigestRow(i)
  {
    hide *;
    Padded(0);
    var m := Pad(ABC);
    ghost var x: nat -> int := (t: nat) => Schedule(m, t);
    OneBlock(ABC);
    ScheduleAgrees(m, x);
    MessageRows(x);
    StartIs();
    AllEighty(H0, m, x);
    forall i | 0 <= i < 8
      ensures Sha512.Sha512(ABC)[8 * i..8 * i + 8] == DigestRow(i)
    {
      DigestBytes(i, Rounds(H0, m, 80), H0, AddState(Rounds(H0, m, 80), H0));
    }
  }

  lemma ScheduleAgrees(m: seq<byte>, x: nat -> int)
    requires |m| == 128 && forall t: nat :: x(t) == Schedule(m, t)
    ensures Agrees(m, x)
  {
    hide Schedule;
  }
}
