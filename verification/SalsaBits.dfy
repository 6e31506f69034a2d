/** The quarter round bit by bit, with the four distances of section 3 of the Salsa20 specification. */
module SalsaBits {
  import opened Arith
  import opened Bits
  import opened BitLaws
  import opened Salsa20

  lemma RotlBit(x: int, c: nat, i: nat)
    requires 0 <= x < M32 && c < 32 && i < 32
    ensures Bit(Rotl(x, c), (i + c) % 32) == Bit(x, i)
  {
    hide Bit, Or, Pow;
    TwoTo32();
    var j := (i + c) % 32;
    PowPositive(2, 32 - c);
    RotateBit(x, 32, 32 - c, j);
    OrSwap(x / Pow(2, 32 - c), x * Pow(2, c) % M32);
  }

  // x xor (y + z) rotated by c: bit i of the sum goes to bit i + c.
  lemma StepBit(x: int, y: int, z: int, c: Distance, i: nat)
    requires i < 32
    ensures Bit(NarrowStep(x, y, z, c), (i + c) % 32) == (Bit(x, (i + c) % 32) + Bit((y + z) % M32, i)) % 2
  {
    hide Bit, Xor, Rotl;
    XorBit(x, Rotl((y + z) % M32, c), (i + c) % 32);
    RotlBit((y + z) % M32, c, i);
  }

  /** Each new word is its old one, with the sum of two others rotated by the word's own distance added modulo 2. */
  lemma QuarterBits(y: Quad<int>, i: nat)
    requires i < 32
    ensures var z := Quarter(NarrowStep)(y);
      && Bit(z.b, (i + 7) % 32) == (Bit(y.b, (i + 7) % 32) + Bit((y.a + y.d) % M32, i)) % 2
      && Bit(z.c, (i + 9) % 32) == (Bit(y.c, (i + 9) % 32) + Bit((z.b + y.a) % M32, i)) % 2
      && Bit(z.d, (i + 13) % 32) == (Bit(y.d, (i + 13) % 32) + Bit((z.c + z.b) % M32, i)) % 2
      && Bit(z.a, (i + 18) % 32) == (Bit(y.a, (i + 18) % 32) + Bit((z.d + z.c) % M32, i)) % 2
  {
    hide Bit, NarrowStep;
    var z := Quarter(NarrowStep)(y);
    StepBit(y.b, y.a, y.d, 7, i);
    StepBit(y.c, z.b, y.a, 9, i);
    StepBit(y.d, z.c, z.b, 13, i);
    StepBit(y.a, z.d, z.c, 18, i);
  }
}
