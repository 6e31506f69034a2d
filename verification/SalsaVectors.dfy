/** Published values of the quarter round, of the cores and of the XSalsa20 stream: the Salsa20 specification, and
    the examples of "Cryptography in NaCl". */
module SalsaVectors {
  import opened Bits
  import opened Salsa20
  import opened SalsaStream
  import opened SalsaWords
  import opened Stream

  // ---- the quarter round ----

  lemma Literal(w: bv64, a: byte, b: byte, c: byte, d: byte)
    requires BytesOf(w) == [d, c, b, a]
    ensures N(w) == ((a as int * 256 + b as int) * 256 + c as int) * 256 + d as int
  {
    hide N, Le, BytesOf;
    BytesAre(w);
    LeFour([d, c, b, a]);
  }


  /** One bit in one word. */
  lemma QuarterUnits()
    ensures Quarter(NarrowStep)(Quad(1, 0, 0, 0))
         == Quad(0x800_8145, 0x80, 0x1_0200, 0x2050_0000)
    ensures Quarter(NarrowStep)(Quad(0, 1, 0, 0))
         == Quad(0x8800_0100, 1, 0x200, 0x40_2000)
    ensures Quarter(NarrowStep)(Quad(0, 0, 1, 0))
         == Quad(0x8004_0000, 0, 1, 0x2000)
    ensures Quarter(NarrowStep)(Quad(0, 0, 0, 1))
         == Quad(0x4_8044, 0x80, 0x1_0000, 0x2010_0001)
  {
    hide N, Quarter, NarrowStep, QuarterWords;
    QuarterUnitsWords();
    Literal(0, 0x00, 0x00, 0x00, 0x00);
    Literal(1, 0x00, 0x00, 0x00, 0x01);
    Literal(0x80, 0x00, 0x00, 0x00, 0x80);
    Literal(0x200, 0x00, 0x00, 0x02, 0x00);
    Literal(0x2000, 0x00, 0x00, 0x20, 0x00);
    Literal(0x1_0000, 0x00, 0x01, 0x00, 0x00);
    Literal(0x1_0200, 0x00, 0x01, 0x02, 0x00);
    Literal(0x4_8044, 0x00, 0x04, 0x80, 0x44);
    Literal(0x40_2000, 0x00, 0x40, 0x20, 0x00);
    Literal(0x800_8145, 0x08, 0x00, 0x81, 0x45);
    Literal(0x2010_0001, 0x20, 0x10, 0x00, 0x01);
    Literal(0x2050_0000, 0x20, 0x50, 0x00, 0x00);
    Literal(0x8004_0000, 0x80, 0x04, 0x00, 0x00);
    Literal(0x8800_0100, 0x88, 0x00, 0x01, 0x00);
    QuarterIs(Quad(1, 0, 0, 0));
    QuarterIs(Quad(0, 1, 0, 0));
    QuarterIs(Quad(0, 0, 1, 0));
    QuarterIs(Quad(0, 0, 0, 1));
  }

  lemma QuarterUnitsWords()
    ensures QuarterWords(Quad(1, 0, 0, 0))
         == Quad(0x800_8145, 0x80, 0x1_0200, 0x2050_0000)
    ensures QuarterWords(Quad(0, 1, 0, 0))
         == Quad(0x8800_0100, 1, 0x200, 0x40_2000)
    ensures QuarterWords(Quad(0, 0, 1, 0))
         == Quad(0x8004_0000, 0, 1, 0x2000)
    ensures QuarterWords(Quad(0, 0, 0, 1))
         == Quad(0x4_8044, 0x80, 0x1_0000, 0x2010_0001)
  {
  }

  /** The two larger examples of the specification's section on the quarter round. */
  lemma QuarterExamples()
    ensures Quarter(NarrowStep)(Quad(0xe7e8_c006, 0xc4f9_417d, 0x6479_b4b2, 0x68c6_7137))
         == Quad(0xe876_d72b, 0x9361_dfd5, 0xf146_0244, 0x9485_41a3)
    ensures Quarter(NarrowStep)(Quad(0xd391_7c5b, 0x55f1_c407, 0x52a5_8a7a, 0x8f88_7a3b))
         == Quad(0x3e2f_308c, 0xd90a_8f36, 0x6ab2_a923, 0x2883_524c)
  {
    hide N, Quarter, NarrowStep, QuarterWords;
    QuarterExamplesWords();
    Literal(0x2883_524c, 0x28, 0x83, 0x52, 0x4c);
    Literal(0x3e2f_308c, 0x3e, 0x2f, 0x30, 0x8c);
    Literal(0x52a5_8a7a, 0x52, 0xa5, 0x8a, 0x7a);
    Literal(0x55f1_c407, 0x55, 0xf1, 0xc4, 0x07);
    Literal(0x6479_b4b2, 0x64, 0x79, 0xb4, 0xb2);
    Literal(0x68c6_7137, 0x68, 0xc6, 0x71, 0x37);
    Literal(0x6ab2_a923, 0x6a, 0xb2, 0xa9, 0x23);
    Literal(0x8f88_7a3b, 0x8f, 0x88, 0x7a, 0x3b);
    Literal(0x9361_dfd5, 0x93, 0x61, 0xdf, 0xd5);
    Literal(0x9485_41a3, 0x94, 0x85, 0x41, 0xa3);
    Literal(0xc4f9_417d, 0xc4, 0xf9, 0x41, 0x7d);
    Literal(0xd391_7c5b, 0xd3, 0x91, 0x7c, 0x5b);
    Literal(0xd90a_8f36, 0xd9, 0x0a, 0x8f, 0x36);
    Literal(0xe7e8_c006, 0xe7, 0xe8, 0xc0, 0x06);
    Literal(0xe876_d72b, 0xe8, 0x76, 0xd7, 0x2b);
    Literal(0xf146_0244, 0xf1, 0x46, 0x02, 0x44);
    QuarterIs(Quad(0xe7e8_c006, 0xc4f9_417d, 0x6479_b4b2, 0x68c6_7137));
    QuarterIs(Quad(0xd391_7c5b, 0x55f1_c407, 0x52a5_8a7a, 0x8f88_7a3b));
  }

  lemma QuarterExamplesWords()
    ensures QuarterWords(Quad(0xe7e8_c006, 0xc4f9_417d, 0x6479_b4b2, 0x68c6_7137))
         == Quad(0xe876_d72b, 0x9361_dfd5, 0xf146_0244, 0x9485_41a3)
    ensures QuarterWords(Quad(0xd391_7c5b, 0x55f1_c407, 0x52a5_8a7a, 0x8f88_7a3b))
         == Quad(0x3e2f_308c, 0xd90a_8f36, 0x6ab2_a923, 0x2883_524c)
  {
  }

  // ---- bytes in rows of four ----

  type Row = s: seq<byte> | |s| == 4 witness [0, 0, 0, 0]

  ghost function Rows(f: nat -> Row, n: nat): (s: seq<byte>)
    ensures |s| == 4 * n && forall i :: 0 <= i < n ==> s[4 * i..4 * i + 4] == f(i)
  {
    seq(4 * n, j requires 0 <= j < 4 * n => f(j / 4)[j % 4])
  }

  lemma SameRows(s: seq<byte>, f: nat -> Row, n: nat)
    requires |s| == 4 * n && forall i :: 0 <= i < n ==> RowAt(s, i) == f(i)
    ensures s == Rows(f, n)
  {
    forall j | 0 <= j < 4 * n
      ensures s[j] == Rows(f, n)[j]
    {
      assert RowAt(s, j / 4)[j % 4] == f(j / 4)[j % 4];
    }
  }

  // The words of z are the rows of f.
  ghost predicate Spelt(z: Block<bv64>, f: nat -> Row, n: nat)
    requires n <= 16
  {
    forall i :: 0 <= i < n ==> BytesOf(WordAt(z, i)) == f(i)
  }

  lemma CoreSpelt(x: Block<bv64>, z: Block<bv64>, inp: seq<byte>, k: seq<byte>, f: nat -> Row)
    requires |inp| == 16 && |k| == 32 && |SIGMA| == 16 && LaidOut(x, inp, k, SIGMA)
    requires Fed(x, TenRounds(x)) == z && Spelt(z, f, 16)
    ensures CoreSalsa20(inp, k, SIGMA) == Rows(f, 16)
  {
    hide *;
    forall i | 0 <= i < 16
      ensures RowAt(CoreSalsa20(inp, k, SIGMA), i) == f(i)
    {
      SpeltAt(z, f, 16, i);
      CoreIs(x, inp, k, SIGMA, i);
    }
    SameRows(CoreSalsa20(inp, k, SIGMA), f, 16);
  }

  lemma SpeltAt(z: Block<bv64>, f: nat -> Row, n: nat, i: nat)
    requires i < n <= 16 && Spelt(z, f, n)
    ensures BytesOf(WordAt(z, i)) == f(i)
  {
  }

  // The words HSalsa20 keeps, as a block's first eight.
  ghost function Kept(z: Block<bv64>): Block<bv64>
  {
    Block(z.x0, z.x5, z.x10, z.x15, z.x6, z.x7, z.x8, z.x9, 0, 0, 0, 0, 0, 0, 0, 0)
  }

  lemma KeptAt(z: Block<bv64>, i: nat)
    requires i < 8
    ensures WordAt(Kept(z), i) == WordAt(z, Picked(i))
  {
  }

  lemma HCoreSpelt(x: Block<bv64>, z: Block<bv64>, inp: seq<byte>, k: seq<byte>, f: nat -> Row)
    requires |inp| == 16 && |k| == 32 && |SIGMA| == 16 && LaidOut(x, inp, k, SIGMA)
    requires Kept(TenRounds(x)) == z && Spelt(z, f, 8)
    ensures CoreHSalsa20(inp, k, SIGMA) == Rows(f, 8)
  {
    hide *;
    forall i | 0 <= i < 8
      ensures RowAt(CoreHSalsa20(inp, k, SIGMA), i) == f(i)
    {
      SpeltAt(z, f, 8, i);
      KeptAt(TenRounds(x), i);
      HCoreIs(x, inp, k, SIGMA, i);
    }
    SameRows(CoreHSalsa20(inp, k, SIGMA), f, 8);
  }

  lemma ConstantIs(x: Block<bv64>)
    requires x.x0 == 0x6170_7865 && x.x5 == 0x3320_646e && x.x10 == 0x7962_2d32 && x.x15 == 0x6b20_6574
    ensures |SIGMA| == 16 && ConstantOut(x, SIGMA)
  {
  }

  // ---- section 9 of the Salsa20 specification ----

  // 1 to 16 and 201 to 216.
  function SpecKey(i: nat): Row
  {
    match i
    case 0 => [1, 2, 3, 4]
    case 1 => [5, 6, 7, 8]
    case 2 => [9, 10, 11, 12]
    case 3 => [13, 14, 15, 16]
    case 4 => [201, 202, 203, 204]
    case 5 => [205, 206, 207, 208]
    case 6 => [209, 210, 211, 212]
    case _ => [213, 214, 215, 216]
  }

  // 101 to 116.
  function SpecInput(i: nat): Row
  {
    match i
    case 0 => [101, 102, 103, 104]
    case 1 => [105, 106, 107, 108]
    case 2 => [109, 110, 111, 112]
    case _ => [113, 114, 115, 116]
  }

  function SpecOutput(i: nat): Row
  {
    match i
    case 0 => [69, 37, 68, 39]
    case 1 => [41, 15, 107, 193]
    case 2 => [255, 139, 122, 6]
    case 3 => [170, 233, 217, 98]
    case 4 => [89, 144, 182, 106]
    case 5 => [21, 51, 200, 65]
    case 6 => [239, 49, 222, 34]
    case 7 => [215, 114, 40, 126]
    case 8 => [104, 197, 7, 225]
    case 9 => [197, 153, 31, 2]
    case 10 => [102, 78, 76, 176]
    case 11 => [84, 245, 246, 184]
    case 12 => [177, 160, 133, 130]
    case 13 => [6, 72, 149, 119]
    case 14 => [192, 195, 132, 236]
    case _ => [234, 103, 246, 74]
  }

  const SPEC_BLOCK: Block<bv64> := Block(
    0x6170_7865, 0x403_0201, 0x807_0605, 0xc0b_0a09, 0x100f_0e0d, 0x3320_646e, 0x6867_6665, 0x6c6b_6a69,
    0x706f_6e6d, 0x7473_7271, 0x7962_2d32, 0xcccb_cac9, 0xd0cf_cecd, 0xd4d3_d2d1, 0xd8d7_d6d5, 0x6b20_6574)

  const SPEC_ROUNDS: Block<bv64> := Block(
    0xc5d3_ace0, 0xbd68_0d28, 0xfe73_85fa, 0x56ce_dfa1, 0x5aa7_824c, 0xea7_cea7, 0xba76_cb8a, 0x11bd_086e,
    0x7098_56fb, 0x8dac_2754, 0x36ea_2134, 0xec2b_2a8b, 0xb1b5_d1e4, 0xa2c1_7535, 0x13ac_eceb, 0xdfd6_0276)

  const SPEC_WORDS: Block<bv64> := Block(
    0x2744_2545, 0xc16b_0f29, 0x67a_8bff, 0x62d9_e9aa, 0x6ab6_9059, 0x41c8_3315, 0x22de_31ef, 0x7e28_72d7,
    0xe107_c568, 0x21f_99c5, 0xb04c_4e66, 0xb8f6_f554, 0x8285_a0b1, 0x7795_4806, 0xec84_c3c0, 0x4af6_67ea)

  lemma SpecRounds()
    ensures TenRounds(SPEC_BLOCK) == SPEC_ROUNDS
  {
  }

  lemma SpecFed()
    ensures Fed(SPEC_BLOCK, SPEC_ROUNDS) == SPEC_WORDS
  {
  }

  lemma SpecSpelt()
    ensures Spelt(SPEC_WORDS, SpecOutput, 16)
  {
  }

  lemma SpecKeyOut()
    ensures KeyOut(SPEC_BLOCK, Rows(SpecKey, 8))
  {
  }

  lemma SpecInputOut()
    ensures InputOut(SPEC_BLOCK, Rows(SpecInput, 4))
  {
  }

  lemma SpecLaidOut()
    ensures |SIGMA| == 16 && LaidOut(SPEC_BLOCK, Rows(SpecInput, 4), Rows(SpecKey, 8), SIGMA)
  {
    hide KeyOut, InputOut, ConstantOut;
    SpecKeyOut();
    SpecInputOut();
    ConstantIs(SPEC_BLOCK);
  }

  /** The core of the specification's example. */
  lemma CoreExample()
    ensures |SIGMA| == 16
    ensures CoreSalsa20(Rows(SpecInput, 4), Rows(SpecKey, 8), SIGMA) == Rows(SpecOutput, 16)
  {
    hide *;
    SpecLaidOut();
    SpecRounds();
    SpecFed();
    SpecSpelt();
    CoreSpelt(SPEC_BLOCK, SPEC_WORDS, Rows(SpecInput, 4), Rows(SpecKey, 8), SpecOutput);
  }

  // ---- sections 8 and 9 of "Cryptography in NaCl" ----

  // The shared secret of the examples.
  function SharedSecret(i: nat): Row
  {
    match i
    case 0 => [0x4a, 0x5d, 0x9d, 0x5b]
    case 1 => [0xa4, 0xce, 0x2d, 0xe1]
    case 2 => [0x72, 0x8e, 0x3b, 0xf4]
    case 3 => [0x80, 0x35, 0x0f, 0x25]
    case 4 => [0xe0, 0x7e, 0x21, 0xc9]
    case 5 => [0x47, 0xd1, 0x9e, 0x33]
    case 6 => [0x76, 0xf0, 0x9b, 0x3c]
    case _ => [0x1e, 0x16, 0x17, 0x42]
  }

  function FirstKey(i: nat): Row
  {
    match i
    case 0 => [0x1b, 0x27, 0x55, 0x64]
    case 1 => [0x73, 0xe9, 0x85, 0xd4]
    case 2 => [0x62, 0xcd, 0x51, 0x19]
    case 3 => [0x7a, 0x9a, 0x46, 0xc7]
    case 4 => [0x60, 0x09, 0x54, 0x9e]
    case 5 => [0xac, 0x64, 0x74, 0xf2]
    case 6 => [0x06, 0xc4, 0xee, 0x08]
    case _ => [0x44, 0xf6, 0x83, 0x89]
  }

  function SecondKey(i: nat): Row
  {
    match i
    case 0 => [0xdc, 0x90, 0x8d, 0xda]
    case 1 => [0x0b, 0x93, 0x44, 0xa9]
    case 2 => [0x53, 0x62, 0x9b, 0x73]
    case 3 => [0x38, 0x20, 0x77, 0x88]
    case 4 => [0x80, 0xf3, 0xce, 0xb4]
    case 5 => [0x21, 0xbb, 0x61, 0xb9]
    case 6 => [0x1c, 0xbd, 0x4c, 0x3e]
    case _ => [0x66, 0x25, 0x6c, 0xe4]
  }

  function Nonce(i: nat): Row
  {
    match i
    case 0 => [0x69, 0x69, 0x6e, 0xe9]
    case 1 => [0x55, 0xb6, 0x2b, 0x73]
    case 2 => [0xcd, 0x62, 0xbd, 0xa8]
    case 3 => [0x75, 0xfc, 0x73, 0xd6]
    case 4 => [0x82, 0x19, 0xe0, 0x03]
    case _ => [0x6b, 0x7a, 0x0b, 0x37]
  }

  // The first 32 bytes of the stream.
  function FirstBytes(i: nat): Row
  {
    match i
    case 0 => [0xee, 0xa6, 0xa7, 0x25]
    case 1 => [0x1c, 0x1e, 0x72, 0x91]
    case 2 => [0x6d, 0x11, 0xc2, 0xcb]
    case 3 => [0x21, 0x4d, 0x3c, 0x25]
    case 4 => [0x25, 0x39, 0x12, 0x1d]
    case 5 => [0x8e, 0x23, 0x4e, 0x65]
    case 6 => [0x2d, 0x65, 0x1f, 0xa4]
    case _ => [0xc8, 0xcf, 0xf8, 0x80]
  }

  function Zeros(i: nat): Row { [0, 0, 0, 0] }

  const FIRST_BLOCK: Block<bv64> := Block(
    0x6170_7865, 0x5b9d_5d4a, 0xe12d_cea4, 0xf43b_8e72, 0x250f_3580, 0x3320_646e, 0, 0,
    0, 0, 0x7962_2d32, 0xc921_7ee0, 0x339e_d147, 0x3c9b_f076, 0x4217_161e, 0x6b20_6574)

  const FIRST_ROUNDS: Block<bv64> := Block(
    0x6455_271b, 0x61fb_2532, 0xd014_184f, 0x3d8f_a8a0, 0x1_2069, 0xd485_e973, 0x9e54_0960, 0xf274_64ac,
    0x8ee_c406, 0x8983_f644, 0x1951_cd62, 0xecd7_8af5, 0xb98_dc76, 0xa089_1d1a, 0xac15_2dce, 0xc746_9a7a)

  const FIRST_KEPT: Block<bv64> := Block(
    0x6455_271b, 0xd485_e973, 0x1951_cd62, 0xc746_9a7a, 0x9e54_0960, 0xf274_64ac, 0x8ee_c406, 0x8983_f644,
    0, 0, 0, 0, 0, 0, 0, 0)

  const SECOND_BLOCK: Block<bv64> := Block(
    0x6170_7865, 0x6455_271b, 0xd485_e973, 0x1951_cd62, 0xc746_9a7a, 0x3320_646e, 0xe96e_6969, 0x732b_b655,
    0xa8bd_62cd, 0xd673_fc75, 0x7962_2d32, 0x9e54_0960, 0xf274_64ac, 0x8ee_c406, 0x8983_f644, 0x6b20_6574)

  const SECOND_ROUNDS: Block<bv64> := Block(
    0xda8d_90dc, 0x4e54_7696, 0x626c_7b04, 0x928b_4e50, 0x6211_3b9a, 0xa944_930b, 0xb4ce_f380, 0xb961_bb21,
    0x3e4c_bd1c, 0xe46c_2566, 0x739b_6253, 0xea38_0e58, 0xdc0f_50c2, 0x11a1_0367, 0x7b20_258f, 0x8877_2038)

  const SECOND_KEPT: Block<bv64> := Block(
    0xda8d_90dc, 0xa944_930b, 0x739b_6253, 0x8877_2038, 0xb4ce_f380, 0xb961_bb21, 0x3e4c_bd1c, 0xe46c_2566,
    0, 0, 0, 0, 0, 0, 0, 0)

  const STREAM_BLOCK: Block<bv64> := Block(
    0x6170_7865, 0xda8d_90dc, 0xa944_930b, 0x739b_6253, 0x8877_2038, 0x3320_646e, 0x3e0_1982, 0x370b_7a6b,
    0, 0, 0x7962_2d32, 0xb4ce_f380, 0xb961_bb21, 0x3e4c_bd1c, 0xe46c_2566, 0x6b20_6574)

  const STREAM_ROUNDS: Block<bv64> := Block(
    0xc437_2e89, 0xb6e4_8d40, 0x227d_7e62, 0xb1a0_eace, 0x949b_18ed, 0x322d_bf20, 0xa03f_4bab, 0x49ed_555d,
    0x5a64_9e30, 0xa6e0_e974, 0x32e1_54db, 0xab_2459, 0xd489_5ff9, 0x3210_723e, 0x79cf_e3a6, 0x2b37_1fe1)

  const STREAM_WORDS: Block<bv64> := Block(
    0x25a7_a6ee, 0x9172_1e1c, 0xcbc2_116d, 0x253c_4d21, 0x1d12_3925, 0x654e_238e, 0xa41f_652d, 0x80f8_cfc8,
    0x5a64_9e30, 0xa6e0_e974, 0xac43_820d, 0xb57a_17d9, 0x8deb_1b1a, 0x705d_2f5a, 0x5e3c_090c, 0x9657_8555)

  lemma FirstRounds()
    ensures TenRounds(FIRST_BLOCK) == FIRST_ROUNDS
  {
  }

  lemma FirstSpelt()
    ensures Kept(FIRST_ROUNDS) == FIRST_KEPT && Spelt(FIRST_KEPT, FirstKey, 8)
  {
  }

  lemma FirstKeyOut()
    ensures KeyOut(FIRST_BLOCK, Rows(SharedSecret, 8))
  {
  }

  lemma FirstInputOut()
    ensures InputOut(FIRST_BLOCK, Rows(Zeros, 4))
  {
    hide BytesOf, Rows, Zeros, InputOut;
    ZeroBytes();
    ZeroRows();
    SameInput(FIRST_BLOCK, Rows(Zeros, 4));
  }

  lemma ZeroRows()
    ensures Rows(Zeros, 4)[..4] == Rows(Zeros, 4)[4..8] == [0, 0, 0, 0]
    ensures Rows(Zeros, 4)[8..12] == Rows(Zeros, 4)[12..] == [0, 0, 0, 0]
  {
  }

  lemma SameInput(x: Block<bv64>, inp: seq<byte>)
    requires |inp| == 16 && x.x6 == x.x7 == x.x8 == x.x9
    requires inp[..4] == inp[4..8] == inp[8..12] == inp[12..] == BytesOf(x.x6)
    ensures InputOut(x, inp)
  {
    hide BytesOf;
  }

  lemma ZeroBytes()
    ensures BytesOf(0) == [0, 0, 0, 0]
  {
  }

  lemma FirstLaidOut()
    ensures |SIGMA| == 16 && LaidOut(FIRST_BLOCK, Rows(Zeros, 4), Rows(SharedSecret, 8), SIGMA)
  {
    hide KeyOut, InputOut, ConstantOut;
    FirstKeyOut();
    FirstInputOut();
    ConstantIs(FIRST_BLOCK);
  }

  /** HSalsa20 of the shared secret and sixteen zeros. */
  lemma FirstKeyExample()
    ensures |SIGMA| == 16 && CoreHSalsa20(Rows(Zeros, 4), Rows(SharedSecret, 8), SIGMA) == Rows(FirstKey, 8)
  {
    hide *;
    FirstLaidOut();
    FirstRounds();
    FirstSpelt();
    HCoreSpelt(FIRST_BLOCK, FIRST_KEPT, Rows(Zeros, 4), Rows(SharedSecret, 8), FirstKey);
  }

  lemma SecondRounds()
    ensures TenRounds(SECOND_BLOCK) == SECOND_ROUNDS
  {
  }

  lemma SecondSpelt()
    ensures Kept(SECOND_ROUNDS) == SECOND_KEPT && Spelt(SECOND_KEPT, SecondKey, 8)
  {
  }

  lemma SecondKeyOut()
    ensures KeyOut(SECOND_BLOCK, Rows(FirstKey, 8))
  {
  }

  lemma SecondInputOut()
    ensures InputOut(SECOND_BLOCK, Rows(Nonce, 6)[..16])
  {
    NonceHead();
  }

  lemma SecondLaidOut()
    ensures |SIGMA| == 16 && LaidOut(SECOND_BLOCK, Rows(Nonce, 6)[..16], Rows(FirstKey, 8), SIGMA)
  {
    hide KeyOut, InputOut, ConstantOut;
    SecondKeyOut();
    SecondInputOut();
    ConstantIs(SECOND_BLOCK);
  }

  lemma NonceHead()
    ensures Rows(Nonce, 6)[..16] == Rows(Nonce, 4)
  {
  }

  /** HSalsa20 of that key and the nonce's first sixteen bytes. */
  lemma SecondKeyExample()
    ensures |SIGMA| == 16 && CoreHSalsa20(Rows(Nonce, 6)[..16], Rows(FirstKey, 8), SIGMA) == Rows(SecondKey, 8)
  {
    hide *;
    SecondLaidOut();
    SecondRounds();
    SecondSpelt();
    HCoreSpelt(SECOND_BLOCK, SECOND_KEPT, Rows(Nonce, 6)[..16], Rows(FirstKey, 8), SecondKey);
  }

  lemma StreamRounds()
    ensures TenRounds(STREAM_BLOCK) == STREAM_ROUNDS
  {
  }

  lemma StreamFed()
    ensures Fed(STREAM_BLOCK, STREAM_ROUNDS) == STREAM_WORDS
  {
  }

  lemma StreamSpelt()
    ensures Spelt(STREAM_WORDS, FirstBytes, 8)
  {
  }

  // The input of the stream's first block.
  function StreamInput(i: nat): Row { if i < 2 then Nonce(4 + i) else Zeros(i) }

  lemma StreamInputIs()
    ensures BlockInput(Rows(Nonce, 6)[16..], 0) == Rows(StreamInput, 4)
  {
    ZeroCounter(Rows(Zeros, 2));
  }

  lemma StreamKeyOut()
    ensures KeyOut(STREAM_BLOCK, Rows(SecondKey, 8))
  {
  }

  lemma StreamInputOut()
    ensures InputOut(STREAM_BLOCK, Rows(StreamInput, 4))
  {
  }

  lemma StreamLaidOut()
    ensures |SIGMA| == 16 && LaidOut(STREAM_BLOCK, Rows(StreamInput, 4), Rows(SecondKey, 8), SIGMA)
  {
    hide KeyOut, InputOut, ConstantOut;
    StreamKeyOut();
    StreamInputOut();
    ConstantIs(STREAM_BLOCK);
  }

  lemma FirstBlockIs()
    ensures |SIGMA| == 16
    ensures CoreSalsa20(BlockInput(Rows(Nonce, 6)[16..], 0), Rows(SecondKey, 8), SIGMA)[..32] == Rows(FirstBytes, 8)
  {
    hide *;
    StreamInputIs();
    StreamLaidOut();
    StreamRounds();
    StreamFed();
    StreamSpelt();
    var out := CoreSalsa20(Rows(StreamInput, 4), Rows(SecondKey, 8), SIGMA);
    forall i | 0 <= i < 8
      ensures RowAt(out[..32], i) == FirstBytes(i)
    {
      SpeltAt(STREAM_WORDS, FirstBytes, 8, i);
      CoreIs(STREAM_BLOCK, Rows(StreamInput, 4), Rows(SecondKey, 8), SIGMA, i);
      RowOfPart(out, 32, i);
    }
    SameRows(out[..32], FirstBytes, 8);
  }

  lemma RowOfPart(s: seq<byte>, n: nat, i: nat)
    requires 4 * i + 4 <= n <= |s|
    ensures RowAt(s[..n], i) == RowAt(s, i)
  {
  }

  /** The first bytes of the stream under the first key. */
  lemma StreamExample()
    ensures XStreamXor(seq(32, i => 0), Rows(Nonce, 6), Rows(FirstKey, 8)) == Rows(FirstBytes, 8)
  {
    hide *;
    SecondKeyExample();
    FirstBlockIs();
    FirstBytesXor(Rows(Nonce, 6), Rows(FirstKey, 8), Rows(SecondKey, 8));
  }

  lemma FirstBytesXor(n: seq<byte>, k: seq<byte>, k2: seq<byte>)
    requires |n| == 24 && |k| == |k2| == 32 && |SIGMA| == 16 && CoreHSalsa20(n[..16], k, SIGMA) == k2
    ensures XStreamXor(seq(32, i => 0), n, k) == CoreSalsa20(BlockInput(n[16..], 0), k2, SIGMA)[..32]
  {
    hide CoreSalsa20, CoreHSalsa20, BlockInput;
  }
}
