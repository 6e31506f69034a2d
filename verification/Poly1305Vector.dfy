/** The example of section 2.5.2 of RFC 8439. */
module Poly1305Vector {
  import opened Arith
  import opened Bits
  import opened Poly1305

  const R_BYTES: seq<byte> := [
    0x85, 0xd6, 0xbe, 0x78, 0x57, 0x55, 0x6d, 0x33, 0x7f, 0x44, 0x52, 0xfe, 0x42, 0xd5, 0x06, 0xa8
  ]

  const S_BYTES: seq<byte> := [
    0x01, 0x03, 0x80, 0x8a, 0xfb, 0x0d, 0xb2, 0xfd, 0x4a, 0xbf, 0xf6, 0xaf, 0x41, 0x49, 0xf5, 0x1b
  ]

  // "Cryptographic Forum Research Group", by blocks.
  const FIRST: seq<byte> := [
    0x43, 0x72, 0x79, 0x70, 0x74, 0x6f, 0x67, 0x72, 0x61, 0x70, 0x68, 0x69, 0x63, 0x20, 0x46, 0x6f
  ]

  const SECOND: seq<byte> := [
    0x72, 0x75, 0x6d, 0x20, 0x52, 0x65, 0x73, 0x65, 0x61, 0x72, 0x63, 0x68, 0x20, 0x47, 0x72, 0x6f
  ]

  const LAST: seq<byte> := [0x75, 0x70]

  const TAG: seq<byte> := [
    0xa8, 0x06, 0x1d, 0xc1, 0x30, 0x51, 0x36, 0xc6, 0xc2, 0x2b, 0x8b, 0xaf, 0x0c, 0x01, 0x27, 0xa9
  ]

  const R: int := 0x806_d540_0e52_447c_036d_5554_08be_d685

  lemma Number(s: seq<byte>)
    requires |s| == 16
    ensures Le(s) == Le([s[0], s[1], s[2], s[3]]) + 0x1_0000_0000 * (Le([s[4], s[5], s[6], s[7]])
      + 0x1_0000_0000 * (Le([s[8], s[9], s[10], s[11]]) + 0x1_0000_0000 * Le([s[12], s[13], s[14], s[15]])))
  {
    hide Le;
    LeSixteen(s);
    assert s[..4] == [s[0], s[1], s[2], s[3]] && s[4..8] == [s[4], s[5], s[6], s[7]];
    assert s[8..12] == [s[8], s[9], s[10], s[11]] && s[12..] == [s[12], s[13], s[14], s[15]];
  }

  lemma Word(a: byte, b: byte, c: byte, d: byte)
    ensures Le([a, b, c, d]) == ((d as int * 256 + c as int) * 256 + b as int) * 256 + a as int
  {
    hide Le;
    LeFour([a, b, c, d]);
  }

  lemma FirstIs()
    ensures |FIRST| == 16 && Le(FIRST) == 0x6f46_2063_6968_7061_7267_6f74_7079_7243
  {
    hide Le;
    Number(FIRST);
    Word(0x43, 0x72, 0x79, 0x70);
    Word(0x74, 0x6f, 0x67, 0x72);
    Word(0x61, 0x70, 0x68, 0x69);
    Word(0x63, 0x20, 0x46, 0x6f);
  }

  lemma SecondIs()
    ensures |SECOND| == 16 && Le(SECOND) == 0x6f72_4720_6863_7261_6573_6552_206d_7572
  {
    hide Le;
    Number(SECOND);
    Word(0x72, 0x75, 0x6d, 0x20);
    Word(0x52, 0x65, 0x73, 0x65);
    Word(0x61, 0x72, 0x63, 0x68);
    Word(0x20, 0x47, 0x72, 0x6f);
  }

  lemma SIs()
    ensures |S_BYTES| == 16 && Le(S_BYTES) == 0x1bf5_4941_aff6_bf4a_fdb2_0dfb_8a80_0301
  {
    hide Le;
    Number(S_BYTES);
    Word(0x01, 0x03, 0x80, 0x8a);
    Word(0xfb, 0x0d, 0xb2, 0xfd);
    Word(0x4a, 0xbf, 0xf6, 0xaf);
    Word(0x41, 0x49, 0xf5, 0x1b);
  }

  lemma TagIs()
    ensures |TAG| == 16 && Le(TAG) == 0xa927_010c_af8b_2bc2_c636_5130_c11d_06a8
  {
    hide Le;
    Number(TAG);
    Word(0xa8, 0x06, 0x1d, 0xc1);
    Word(0x30, 0x51, 0x36, 0xc6);
    Word(0xc2, 0x2b, 0x8b, 0xaf);
    Word(0x0c, 0x01, 0x27, 0xa9);
  }

  lemma RIs()
    ensures |R_BYTES| == 16 && Le(ClampR(R_BYTES + S_BYTES)) == R
  {
    hide Le, ClampR;
    var k := R_BYTES + S_BYTES;
    ClampIs(k);
    assert k[..4] == [0x85, 0xd6, 0xbe, 0x78] && k[4..8] == [0x57, 0x55, 0x6d, 0x33];
    assert k[8..12] == [0x7f, 0x44, 0x52, 0xfe] && k[12..16] == [0x42, 0xd5, 0x06, 0xa8];
    Word(0x85, 0xd6, 0xbe, 0x78);
    Word(0x57, 0x55, 0x6d, 0x33);
    Word(0x7f, 0x44, 0x52, 0xfe);
    Word(0x42, 0xd5, 0x06, 0xa8);
  }

  lemma LastIs()
    ensures Le(LAST + [1]) == 0x1_7075
  {
    Word(0x75, 0x70, 1, 0);
    LeConcat(LAST + [1], [0]);
    assert LAST + [1] + [0] == [0x75, 0x70, 1, 0];
    assert Le([0]) == 0;
  }

  // One whole block with its final one bit.
  lemma OneBlock(b: seq<byte>, rest: seq<byte>, r: int, acc: int)
    requires |b| == 16
    ensures Blocks(b + rest, r, acc) == Blocks(rest, r, (acc + Le(b) + R128) * r % P1305)
  {
    hide Le, Pow;
    var m := b + rest;
    assert m[..16] == b && m[16..] == rest;
    Powers();
    LeConcat(b, [1]);
    LeOne();
  }

  lemma LeOne()
    ensures Le([1]) == 1
  {
  }

  lemma TheBlocks()
    ensures Blocks(FIRST + (SECOND + LAST), R, 0) == 0x2_8d31_b7ca_ff94_6c77_c884_4335_369d_03a7
  {
    hide Le, Blocks, FIRST, SECOND, LAST;
    FirstIs();
    SecondIs();
    LastIs();
    OneBlock(FIRST, SECOND + LAST, R, 0);
    assert (0x6f46_2063_6968_7061_7267_6f74_7079_7243 + R128) * R % P1305
        == 0x2_c88c_7784_9d64_ae91_47dd_eb88_e69c_83fc;
    OneBlock(SECOND, LAST, R, 0x2_c88c_7784_9d64_ae91_47dd_eb88_e69c_83fc);
    assert (0x2_c88c_7784_9d64_ae91_47dd_eb88_e69c_83fc + 0x6f72_4720_6863_7261_6573_6552_206d_7572 + R128) * R % P1305
        == 0x2_d8ad_af23_b033_7fa7_cccf_b4ea_344b_30de;
    LastBlock(0x2_d8ad_af23_b033_7fa7_cccf_b4ea_344b_30de);
    assert (0x2_d8ad_af23_b033_7fa7_cccf_b4ea_344b_30de + 0x1_7075) * R % P1305
        == 0x2_8d31_b7ca_ff94_6c77_c884_4335_369d_03a7;
  }

  lemma LastBlock(acc: int)
    ensures Blocks(LAST, R, acc) == (acc + Le(LAST + [1])) * R % P1305
  {
    assert LAST[..2] == LAST && LAST[2..] == [];
  }

  /** The tag of the example's message under the example's key. */
  lemma Rfc8439Example()
    ensures Mac(FIRST + SECOND + LAST, R_BYTES + S_BYTES) == TAG
  {
    hide Le, Blocks, ClampR, FIRST, SECOND, LAST, TAG, R_BYTES, S_BYTES, LeBytes, Pow;
    var k := R_BYTES + S_BYTES;
    SIs();
    RIs();
    TagIs();
    TheBlocks();
    assert k[16..] == S_BYTES;
    assert FIRST + SECOND + LAST == FIRST + (SECOND + LAST);
    assert (0x2_8d31_b7ca_ff94_6c77_c884_4335_369d_03a7 + 0x1bf5_4941_aff6_bf4a_fdb2_0dfb_8a80_0301) % R128
        == 0xa927_010c_af8b_2bc2_c636_5130_c11d_06a8;
    Powers();
    LeOfLeBytes(0xa927_010c_af8b_2bc2_c636_5130_c11d_06a8, 16);
    LeInjective(LeBytes(0xa927_010c_af8b_2bc2_c636_5130_c11d_06a8, 16), TAG);
  }
}
