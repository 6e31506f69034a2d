/** SHA-512's functions on machine words, and that the functions on numbers compute the same. */
module Sha512Words {
  import opened Arith
  import opened Bits
  import opened Words
  import opened Sha512

  // The number a word stands for.
  ghost function N(w: bv64): (x: int)
    ensures 0 <= x < M64
  {
    VBound(w, 64);
    TwoTo64();
    V(w, 64)
  }

  lemma NIs(w: bv64)
    ensures N(w) == V(w, 64)
  {
    hide V;
  }

  // ---- rotations and shifts ----

  function Right28(w: bv64): bv64 { OrWord(w >> 28, w << 36) }

  function Right34(w: bv64): bv64 { OrWord(w >> 34, w << 30) }

  function Right39(w: bv64): bv64 { OrWord(w >> 39, w << 25) }

  function Right14(w: bv64): bv64 { OrWord(w >> 14, w << 50) }

  function Right18(w: bv64): bv64 { OrWord(w >> 18, w << 46) }

  function Right41(w: bv64): bv64 { OrWord(w >> 41, w << 23) }

  function Right1(w: bv64): bv64 { OrWord(w >> 1, w << 63) }

  function Right8(w: bv64): bv64 { OrWord(w >> 8, w << 56) }

  function Right19(w: bv64): bv64 { OrWord(w >> 19, w << 45) }

  function Right61(w: bv64): bv64 { OrWord(w >> 61, w << 3) }

  // Shifted words d and u, joined, are the rotation.
  lemma Turned(w: bv64, d: bv64, u: bv64, c: nat)
    requires c <= 64 && d == Down(w, c) && u == Up(w, 64 - c)
    ensures N(OrWord(d, u)) == Rotr(N(w), c)
  {
    hide V, Up, Down, OrWord, Or, Pow, Rotr;
    TwoTo64();
    RotrIs(N(w), c);
    WordFits(w);
    DownIs(w, 64, c);
    UpIs(w, 64, 64 - c);
    OrIs(d, u, 64);
  }

  lemma WordFits(w: bv64)
    ensures Fits(w, 64)
  {
  }

  lemma RotrIs(x: int, c: nat)
    requires c <= 64
    ensures Pow(2, c) > 0 && Rotr(x, c) == Or(x / Pow(2, c), x * Pow(2, 64 - c) % M64)
  {
    hide Or, Pow;
    PowPositive(2, c);
  }

  lemma Right28Is(w: bv64)
    ensures N(Right28(w)) == Rotr(N(w), 28)
  {
    hide N, Rotr, Up, Down, OrWord;
    assert DownEight(w, 20) && DownEight(w >> 8, 12) && DownEight(w >> 16, 4) && DownTwo(w >> 24, 2)
      && DownTwo(w >> 26, 0);
    assert UpEight(w, 28) && UpEight(w << 8, 20) && UpEight(w << 16, 12) && UpEight(w << 24, 4) && UpTwo(w << 32, 2)
      && UpTwo(w << 34, 0);
    DownNone(w >> 28);
    UpNone(w << 36);
    Turned(w, w >> 28, w << 36, 28);
  }

  lemma Right34Is(w: bv64)
    ensures N(Right34(w)) == Rotr(N(w), 34)
  {
    hide N, Rotr, Up, Down, OrWord;
    assert DownEight(w, 26) && DownEight(w >> 8, 18) && DownEight(w >> 16, 10) && DownEight(w >> 24, 2)
      && DownTwo(w >> 32, 0);
    assert UpEight(w, 22) && UpEight(w << 8, 14) && UpEight(w << 16, 6) && UpTwo(w << 24, 4) && UpTwo(w << 26, 2)
      && UpTwo(w << 28, 0);
    DownNone(w >> 34);
    UpNone(w << 30);
    Turned(w, w >> 34, w << 30, 34);
  }

  lemma Right39Is(w: bv64)
    ensures N(Right39(w)) == Rotr(N(w), 39)
  {
    hide N, Rotr, Up, Down, OrWord;
    assert DownEight(w, 31) && DownEight(w >> 8, 23) && DownEight(w >> 16, 15) && DownEight(w >> 24, 7)
      && DownTwo(w >> 32, 5) && DownTwo(w >> 34, 3) && DownTwo(w >> 36, 1) && DownOne(w >> 38, 0);
    assert UpEight(w, 17) && UpEight(w << 8, 9) && UpEight(w << 16, 1) && UpOne(w << 24, 0);
    DownNone(w >> 39);
    UpNone(w << 25);
    Turned(w, w >> 39, w << 25, 39);
  }

  lemma Right14Is(w: bv64)
    ensures N(Right14(w)) == Rotr(N(w), 14)
  {
    hide N, Rotr, Up, Down, OrWord;
    assert DownEight(w, 6) && DownTwo(w >> 8, 4) && DownTwo(w >> 10, 2) && DownTwo(w >> 12, 0);
    assert UpEight(w, 42) && UpEight(w << 8, 34) && UpEight(w << 16, 26) && UpEight(w << 24, 18)
      && UpEight(w << 32, 10) && UpEight(w << 40, 2) && UpTwo(w << 48, 0);
    DownNone(w >> 14);
    UpNone(w << 50);
    Turned(w, w >> 14, w << 50, 14);
  }

  lemma Right18Is(w: bv64)
    ensures N(Right18(w)) == Rotr(N(w), 18)
  {
    hide N, Rotr, Up, Down, OrWord;
    assert DownEight(w, 10) && DownEight(w >> 8, 2) && DownTwo(w >> 16, 0);
    assert UpEight(w, 38) && UpEight(w << 8, 30) && UpEight(w << 16, 22) && UpEight(w << 24, 14)
      && UpEight(w << 32, 6) && UpTwo(w << 40, 4) && UpTwo(w << 42, 2) && UpTwo(w << 44, 0);
    DownNone(w >> 18);
    UpNone(w << 46);
    Turned(w, w >> 18, w << 46, 18);
  }

  lemma Right41Is(w: bv64)
    ensures N(Right41(w)) == Rotr(N(w), 41)
  {
    hide N, Rotr, Up, Down, OrWord;
    assert DownEight(w, 33) && DownEight(w >> 8, 25) && DownEight(w >> 16, 17) && DownEight(w >> 24, 9)
      && DownEight(w >> 32, 1) && DownOne(w >> 40, 0);
    assert UpEight(w, 15) && UpEight(w << 8, 7) && UpTwo(w << 16, 5) && UpTwo(w << 18, 3) && UpTwo(w << 20, 1)
      && UpOne(w << 22, 0);
    DownNone(w >> 41);
    UpNone(w << 23);
    Turned(w, w >> 41, w << 23, 41);
  }

  lemma Right1Is(w: bv64)
    ensures N(Right1(w)) == Rotr(N(w), 1)
  {
    hide N, Rotr, Up, Down, OrWord;
    assert DownOne(w, 0);
    assert UpEight(w, 55) && UpEight(w << 8, 47) && UpEight(w << 16, 39) && UpEight(w << 24, 31)
      && UpEight(w << 32, 23) && UpEight(w << 40, 15) && UpEight(w << 48, 7) && UpTwo(w << 56, 5)
      && UpTwo(w << 58, 3) && UpTwo(w << 60, 1) && UpOne(w << 62, 0);
    DownNone(w >> 1);
    UpNone(w << 63);
    Turned(w, w >> 1, w << 63, 1);
  }

  lemma Right8Is(w: bv64)
    ensures N(Right8(w)) == Rotr(N(w), 8)
  {
    hide N, Rotr, Up, Down, OrWord;
    assert DownEight(w, 0);
    assert UpEight(w, 48) && UpEight(w << 8, 40) && UpEight(w << 16, 32) && UpEight(w << 24, 24)
      && UpEight(w << 32, 16) && UpEight(w << 40, 8) && UpEight(w << 48, 0);
    DownNone(w >> 8);
    UpNone(w << 56);
    Turned(w, w >> 8, w << 56, 8);
  }

  lemma Right19Is(w: bv64)
    ensures N(Right19(w)) == Rotr(N(w), 19)
  {
    hide N, Rotr, Up, Down, OrWord;
    assert DownEight(w, 11) && DownEight(w >> 8, 3) && DownTwo(w >> 16, 1) && DownOne(w >> 18, 0);
    assert UpEight(w, 37) && UpEight(w << 8, 29) && UpEight(w << 16, 21) && UpEight(w << 24, 13)
      && UpEight(w << 32, 5) && UpTwo(w << 40, 3) && UpTwo(w << 42, 1) && UpOne(w << 44, 0);
    DownNone(w >> 19);
    UpNone(w << 45);
    Turned(w, w >> 19, w << 45, 19);
  }

  lemma Right61Is(w: bv64)
    ensures N(Right61(w)) == Rotr(N(w), 61)
  {
    hide N, Rotr, Up, Down, OrWord;
    assert DownEight(w, 53) && DownEight(w >> 8, 45) && DownEight(w >> 16, 37) && DownEight(w >> 24, 29)
      && DownEight(w >> 32, 21) && DownEight(w >> 40, 13) && DownEight(w >> 48, 5) && DownTwo(w >> 56, 3)
      && DownTwo(w >> 58, 1) && DownOne(w >> 60, 0);
    assert UpTwo(w, 1) && UpOne(w << 2, 0);
    DownNone(w >> 61);
    UpNone(w << 3);
    Turned(w, w >> 61, w << 3, 61);
  }

  lemma Shift6Is(w: bv64)
    ensures N(w >> 6) == Shr(N(w), 6)
  {
    hide V, Down;
    WordFits(w);
    assert DownTwo(w, 4) && DownTwo(w >> 2, 2) && DownTwo(w >> 4, 0);
    DownNone(w >> 6);
    DownIs(w, 64, 6);
  }

  lemma Shift7Is(w: bv64)
    ensures N(w >> 7) == Shr(N(w), 7)
  {
    hide V, Down;
    WordFits(w);
    assert DownTwo(w, 5) && DownTwo(w >> 2, 3) && DownTwo(w >> 4, 1) && DownOne(w >> 6, 0);
    DownNone(w >> 7);
    DownIs(w, 64, 7);
  }

  // ---- the functions ----

  function BigSigma0(w: bv64): bv64
  {
    XorWord(XorWord((w >> 28) | (w << 36), (w >> 34) | (w << 30)), (w >> 39) | (w << 25))
  }

  function BigSigma1(w: bv64): bv64
  {
    XorWord(XorWord((w >> 14) | (w << 50), (w >> 18) | (w << 46)), (w >> 41) | (w << 23))
  }

  function SmallSigma0(w: bv64): bv64
  {
    XorWord(XorWord((w >> 1) | (w << 63), (w >> 8) | (w << 56)), w >> 7)
  }

  function SmallSigma1(w: bv64): bv64
  {
    XorWord(XorWord((w >> 19) | (w << 45), (w >> 61) | (w << 3)), w >> 6)
  }

  function Choice(x: bv64, y: bv64, z: bv64): bv64 { (x & y) ^ ((x ^ 0xffff_ffff_ffff_ffff) & z) }

  function Majority(x: bv64, y: bv64, z: bv64): bv64 { XorWord(XorWord(x & y, x & z), y & z) }

  lemma XorOf(x: bv64, y: bv64)
    ensures N(XorWord(x, y)) == Xor(N(x), N(y))
  {
    hide V, Xor, XorWord;
    XorIs(x, y, 64);
  }

  lemma AndOf(x: bv64, y: bv64)
    ensures N(AndWord(x, y)) == And(N(x), N(y))
  {
    hide V, And, AndWord;
    AndIs(x, y, 64);
  }

  lemma NotOf(x: bv64)
    ensures N(XorWord(x, 0xffff_ffff_ffff_ffff)) == M64 - 1 - N(x)
  {
    hide V, XorWord, Ones;
    TwoTo64();
    AllOnes();
    NotIs(x, 0xffff_ffff_ffff_ffff, 64);
  }

  // As functions, so that a use of them is about the very words they are applied to.
  ghost function BigSigma0Split(w: bv64): (done: bool)
    ensures done && BigSigma0(w) == XorWord(XorWord(Right28(w), Right34(w)), Right39(w))
  {
    hide XorWord;
    true
  }

  lemma BigSigma0Is(w: bv64)
    ensures N(BigSigma0(w)) == Sigma0(N(w))
  {
    hide N, XorWord, Xor, Rotr, Shr, BigSigma0, Right28, Right34, Right39;
    assert BigSigma0Split(w);
    Right28Is(w);
    Right34Is(w);
    Right39Is(w);
    XorOf(Right28(w), Right34(w));
    XorOf(XorWord(Right28(w), Right34(w)), Right39(w));
  }

  ghost function BigSigma1Split(w: bv64): (done: bool)
    ensures done && BigSigma1(w) == XorWord(XorWord(Right14(w), Right18(w)), Right41(w))
  {
    hide XorWord;
    true
  }

  lemma BigSigma1Is(w: bv64)
    ensures N(BigSigma1(w)) == Sigma1(N(w))
  {
    hide N, XorWord, Xor, Rotr, Shr, BigSigma1, Right14, Right18, Right41;
    assert BigSigma1Split(w);
    Right14Is(w);
    Right18Is(w);
    Right41Is(w);
    XorOf(Right14(w), Right18(w));
    XorOf(XorWord(Right14(w), Right18(w)), Right41(w));
  }

  ghost function SmallSigma0Split(w: bv64): (done: bool)
    ensures done && SmallSigma0(w) == XorWord(XorWord(Right1(w), Right8(w)), w >> 7)
  {
    hide XorWord;
    true
  }

  lemma SmallSigma0Is(w: bv64)
    ensures N(SmallSigma0(w)) == LowerSigma0(N(w))
  {
    hide N, XorWord, Xor, Rotr, Shr, SmallSigma0, Right1, Right8;
    assert SmallSigma0Split(w);
    Right1Is(w);
    Right8Is(w);
    Shift7Is(w);
    XorOf(Right1(w), Right8(w));
    XorOf(XorWord(Right1(w), Right8(w)), w >> 7);
  }

  ghost function SmallSigma1Split(w: bv64): (done: bool)
    ensures done && SmallSigma1(w) == XorWord(XorWord(Right19(w), Right61(w)), w >> 6)
  {
    hide XorWord;
    true
  }

  lemma SmallSigma1Is(w: bv64)
    ensures N(SmallSigma1(w)) == LowerSigma1(N(w))
  {
    hide N, XorWord, Xor, Rotr, Shr, SmallSigma1, Right19, Right61;
    assert SmallSigma1Split(w);
    Right19Is(w);
    Right61Is(w);
    Shift6Is(w);
    XorOf(Right19(w), Right61(w));
    XorOf(XorWord(Right19(w), Right61(w)), w >> 6);
  }

  ghost function ChoiceSplit(x: bv64, y: bv64, z: bv64): (done: bool)
    ensures done && Choice(x, y, z) == XorWord(AndWord(x, y), AndWord(XorWord(x, 0xffff_ffff_ffff_ffff), z))
  {
    true
  }

  lemma ChoiceIs(x: bv64, y: bv64, z: bv64)
    ensures N(Choice(x, y, z)) == Ch(N(x), N(y), N(z))
  {
    hide N, XorWord, AndWord, Xor, And, Choice;
    assert ChoiceSplit(x, y, z);
    NotOf(x);
    AndOf(x, y);
    AndOf(XorWord(x, 0xffff_ffff_ffff_ffff), z);
    XorOf(AndWord(x, y), AndWord(XorWord(x, 0xffff_ffff_ffff_ffff), z));
  }

  ghost function MajoritySplit(x: bv64, y: bv64, z: bv64): (done: bool)
    ensures done && Majority(x, y, z) == XorWord(XorWord(AndWord(x, y), AndWord(x, z)), AndWord(y, z))
  {
    hide XorWord;
    true
  }

  lemma MajorityIs(x: bv64, y: bv64, z: bv64)
    ensures N(Majority(x, y, z)) == Maj(N(x), N(y), N(z))
  {
    hide N, XorWord, AndWord, Xor, And, Majority;
    assert MajoritySplit(x, y, z);
    AndOf(x, y);
    AndOf(x, z);
    AndOf(y, z);
    XorOf(AndWord(x, y), AndWord(x, z));
    XorOf(XorWord(AndWord(x, y), AndWord(x, z)), AndWord(y, z));
  }

  // ---- sums ----

  function Sum2(x1: bv64, x2: bv64): bv64 { x1 + x2 }

  function Sum4(x1: bv64, x2: bv64, x3: bv64, x4: bv64): bv64 { x1 + x2 + x3 + x4 }

  function Sum6(x1: bv64, x2: bv64, x3: bv64, x4: bv64, x5: bv64, x6: bv64): bv64 { x1 + x2 + x3 + x4 + x5 + x6 }

  function Sum7(x1: bv64, x2: bv64, x3: bv64, x4: bv64, x5: bv64, x6: bv64, x7: bv64): bv64
  {
    x1 + x2 + x3 + x4 + x5 + x6 + x7
  }

  // Of two shorter sums, s and t the numbers they have before they are cut.
  lemma Joined(a: int, b: int, u: int, s: int, t: int, p: int)
    requires p > 0 && a == s % p && b == t % p && u == (a + b) % p
    ensures u == (s + t) % p
  {
    ModPlus(s, t % p, p);
    ModPlus(t, s, p);
  }

  lemma Sum2Is(x1: bv64, x2: bv64)
    ensures N(Sum2(x1, x2)) == (N(x1) + N(x2)) % M64
  {
    hide V;
    TwoTo64();
    Split2(x1, x2, 64);
  }

  lemma Split2(x1: bv64, x2: bv64, n: nat)
    requires n <= 64
    ensures Pow(2, n) > 0 && V(Sum2(x1, x2), n) == (V(x1, n) + V(x2, n)) % Pow(2, n)
  {
    hide V, Pow;
    assert Summed(x1, x2, n);
  }

  lemma Split4(x1: bv64, x2: bv64, x3: bv64, x4: bv64, n: nat)
    requires n <= 64
    ensures Pow(2, n) > 0
    ensures V(Sum4(x1, x2, x3, x4), n) == (V(Sum2(x1, x2), n) + V(Sum2(x3, x4), n)) % Pow(2, n)
  {
    hide V, Pow;
    assert Summed(x1 + x2, x3 + x4, n);
  }

  lemma Sum4Is(x1: bv64, x2: bv64, x3: bv64, x4: bv64)
    ensures N(Sum4(x1, x2, x3, x4)) == (N(x1) + N(x2) + N(x3) + N(x4)) % M64
  {
    hide V, Sum2, Sum4;
    TwoTo64();
    Sum2Is(x1, x2);
    Sum2Is(x3, x4);
    Split4(x1, x2, x3, x4, 64);
    Joined(N(Sum2(x1, x2)), N(Sum2(x3, x4)), N(Sum4(x1, x2, x3, x4)),
           N(x1) + N(x2), N(x3) + N(x4), M64);
  }

  lemma Split6(x1: bv64, x2: bv64, x3: bv64, x4: bv64, x5: bv64, x6: bv64, n: nat)
    requires n <= 64
    ensures Pow(2, n) > 0
    ensures V(Sum6(x1, x2, x3, x4, x5, x6), n) == (V(Sum2(x1, x2), n) + V(Sum4(x3, x4, x5, x6), n)) % Pow(2, n)
  {
    hide V, Pow;
    assert Summed(x1 + x2, x3 + x4 + x5 + x6, n);
  }

  lemma Sum6Is(x1: bv64, x2: bv64, x3: bv64, x4: bv64, x5: bv64, x6: bv64)
    ensures N(Sum6(x1, x2, x3, x4, x5, x6)) == (N(x1) + N(x2) + N(x3) + N(x4) + N(x5) + N(x6)) % M64
  {
    hide V, Sum2, Sum4, Sum6;
    TwoTo64();
    Sum2Is(x1, x2);
    Sum4Is(x3, x4, x5, x6);
    Split6(x1, x2, x3, x4, x5, x6, 64);
    Joined(N(Sum2(x1, x2)), N(Sum4(x3, x4, x5, x6)), N(Sum6(x1, x2, x3, x4, x5, x6)),
           N(x1) + N(x2), N(x3) + N(x4) + N(x5) + N(x6), M64);
  }

  lemma Split7(x1: bv64, x2: bv64, x3: bv64, x4: bv64, x5: bv64, x6: bv64, x7: bv64, n: nat)
    requires n <= 64
    ensures Pow(2, n) > 0
    ensures V(Sum7(x1, x2, x3, x4, x5, x6, x7), n) == (V(x1, n) + V(Sum6(x2, x3, x4, x5, x6, x7), n)) % Pow(2, n)
  {
    hide V, Pow;
    assert Summed(x1, x2 + x3 + x4 + x5 + x6 + x7, n);
  }

  lemma Sum7Is(x1: bv64, x2: bv64, x3: bv64, x4: bv64, x5: bv64, x6: bv64, x7: bv64)
    ensures N(Sum7(x1, x2, x3, x4, x5, x6, x7)) == (N(x1) + N(x2) + N(x3) + N(x4) + N(x5) + N(x6) + N(x7)) % M64
  {
    hide V, Sum2, Sum4, Sum6, Sum7;
    TwoTo64();
    ModSmall(N(x1), M64);
    Sum6Is(x2, x3, x4, x5, x6, x7);
    Split7(x1, x2, x3, x4, x5, x6, x7, 64);
    Joined(N(x1), N(Sum6(x2, x3, x4, x5, x6, x7)), N(Sum7(x1, x2, x3, x4, x5, x6, x7)),
           N(x1), N(x2) + N(x3) + N(x4) + N(x5) + N(x6) + N(x7), M64);
  }

  // ---- the schedule and the rounds ----

  // Word t of the schedule, from those 2, 7, 15 and 16 before it.
  function Scheduled(w2: bv64, w7: bv64, w15: bv64, w16: bv64): bv64
  {
    SmallSigma1(w2) + w7 + SmallSigma0(w15) + w16
  }

  lemma ScheduledSplit(w2: bv64, w7: bv64, w15: bv64, w16: bv64)
    ensures Scheduled(w2, w7, w15, w16) == Sum4(SmallSigma1(w2), w7, SmallSigma0(w15), w16)
  {
    hide SmallSigma0, SmallSigma1;
  }

  lemma ScheduledIs(w2: bv64, w7: bv64, w15: bv64, w16: bv64)
    ensures N(Scheduled(w2, w7, w15, w16)) == (LowerSigma1(N(w2)) + N(w7) + LowerSigma0(N(w15)) + N(w16)) % M64
  {
    hide N, Sum4, Scheduled, SmallSigma0, SmallSigma1, LowerSigma0, LowerSigma1;
    ScheduledSplit(w2, w7, w15, w16);
    SmallSigma1Is(w2);
    SmallSigma0Is(w15);
    Sum4Is(SmallSigma1(w2), w7, SmallSigma0(w15), w16);
  }

  datatype State = State(a: bv64, b: bv64, c: bv64, d: bv64, e: bv64, f: bv64, g: bv64, h: bv64)

  ghost function NumbersOf(v: State): (s: seq<int>)
    ensures |s| == 8
  {
    [N(v.a), N(v.b), N(v.c), N(v.d), N(v.e), N(v.f), N(v.g), N(v.h)]
  }

  function Made(a: bv64, b: bv64, c: bv64, d: bv64, e: bv64, f: bv64, g: bv64, h: bv64, k: bv64, w: bv64): State
  {
    State(h + BigSigma1(e) + Choice(e, f, g) + k + w + BigSigma0(a) + Majority(a, b, c), a, b, c,
          d + h + BigSigma1(e) + Choice(e, f, g) + k + w, e, f, g)
  }

  function RoundWords(v: State, k: bv64, w: bv64): State { Made(v.a, v.b, v.c, v.d, v.e, v.f, v.g, v.h, k, w) }

  lemma MadeSplit(a: bv64, b: bv64, c: bv64, d: bv64, e: bv64, f: bv64, g: bv64, h: bv64, k: bv64, w: bv64)
    ensures Made(a, b, c, d, e, f, g, h, k, w)
         == State(Sum7(h, BigSigma1(e), Choice(e, f, g), k, w, BigSigma0(a), Majority(a, b, c)), a, b, c,
                  Sum6(d, h, BigSigma1(e), Choice(e, f, g), k, w), e, f, g)
  {
    hide BigSigma0, BigSigma1, Choice, Majority;
  }

  // t1 is the sum s before it is cut.
  lemma CutTwice(s: int, a: int, b: int, d: int)
    ensures (s % M64 + (a + b) % M64) % M64 == (s + a + b) % M64 && (d + s % M64) % M64 == (d + s) % M64
  {
    ModPlus(s, (a + b) % M64, M64);
    ModPlus(a + b, s, M64);
    ModPlus(s, d, M64);
  }

  /** The round on numbers is the round on words. */
  lemma RoundWordsIs(v: State, k: bv64, w: bv64)
    ensures Round(NumbersOf(v), N(k), N(w)) == NumbersOf(RoundWords(v, k, w))
  {
    hide N, Made, Sum6, Sum7, BigSigma0, BigSigma1, Choice, Majority, Sigma0, Sigma1, Ch, Maj;
    MadeSplit(v.a, v.b, v.c, v.d, v.e, v.f, v.g, v.h, k, w);
    BigSigma0Is(v.a);
    BigSigma1Is(v.e);
    ChoiceIs(v.e, v.f, v.g);
    MajorityIs(v.a, v.b, v.c);
    var s, c, s', m := BigSigma1(v.e), Choice(v.e, v.f, v.g), BigSigma0(v.a), Majority(v.a, v.b, v.c);
    Sum7Is(v.h, s, c, k, w, s', m);
    Sum6Is(v.d, v.h, s, c, k, w);
    CutTwice(N(v.h) + N(s) + N(c) + N(k) + N(w), N(s'), N(m), N(v.d));
  }
  // ---- bytes, highest first ----

  // By the weights of its bytes.
  function Weighed(w: bv64): int
  {
    ByteOf(w) as int + 0x100 * ByteOf(w >> 8) as int + 0x1_0000 * ByteOf(w >> 16) as int
    + 0x100_0000 * ByteOf(w >> 24) as int + 0x1_0000_0000 * ByteOf(w >> 32) as int
    + 0x100_0000_0000 * ByteOf(w >> 40) as int + 0x1_0000_0000_0000 * ByteOf(w >> 48) as int
    + 0x100_0000_0000_0000 * ByteOf(w >> 56) as int
  }

  lemma WeighedIs(w: bv64)
    ensures N(w) == Weighed(w)
  {
    hide V, ByteOf;
    assert ByteSplit(w, 56) && ByteSplit(w >> 8, 48) && ByteSplit(w >> 16, 40) && ByteSplit(w >> 24, 32);
    assert ByteSplit(w >> 32, 24) && ByteSplit(w >> 40, 16) && ByteSplit(w >> 48, 8) && ByteSplit(w >> 56, 0);
    VNone(w >> 64);
  }

  function BytesOf(w: bv64): (s: seq<byte>)
    ensures |s| == 8
  {
    [ByteOf(w >> 56), ByteOf(w >> 48), ByteOf(w >> 40), ByteOf(w >> 32),
     ByteOf(w >> 24), ByteOf(w >> 16), ByteOf(w >> 8), ByteOf(w)]
  }

  lemma BytesAre(w: bv64)
    ensures Be(BytesOf(w)) == N(w) && BeBytes(N(w), 8) == BytesOf(w)
  {
    hide N, ByteOf, Be, BeBytes;
    WeighedIs(w);
    EightBytes(BytesOf(w));
    TwoTo64();
    BeOfBeBytes(N(w), 8);
    BeInjective(BeBytes(N(w), 8), BytesOf(w));
  }

  lemma {:induction false} BeInjective(s: seq<byte>, t: seq<byte>)
    requires |s| == |t| && Be(s) == Be(t)
    ensures s == t
    decreases |s|
  {
    if s != [] {
      var n := |s| - 1;
      BeInjective(s[..n], t[..n]);
      SameByte(s[n], t[n]);
      assert s == s[..n] + [s[n]] && t == t[..n] + [t[n]];
    }
  }
}
