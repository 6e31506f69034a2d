/** Machine words as bit vectors, and the numbers they stand for: the bitwise operators on numbers, rotations and
    wrapping sums are the machine's own. */
module Words {
  import opened Arith
  import opened Bits

  function Half(b: bv64): bv64 { b >> 1 }

  function Low(b: bv64): (i: int)
    ensures 0 <= i <= 1
  {
    if b & 1 == 1 then 1 else 0
  }

  // The number made of the low n bits.
  function V(b: bv64, n: nat): (v: int)
    ensures v >= 0
    decreases n, b
  {
    if n == 0 then 0 else Low(b) + 2 * V(Half(b), n - 1)
  }

  lemma VStep(b: bv64, n: nat)
    requires n > 0
    ensures V(b, n) == Low(b) + 2 * V(Half(b), n - 1)
    ensures V(b, n) / 2 == V(Half(b), n - 1) && V(b, n) % 2 == Low(b)
  {
    hide Low, Half;
  }

  lemma {:induction false} VBound(b: bv64, n: nat)
    ensures V(b, n) < Pow(2, n)
    decreases n
  {
    hide Low, Half;
    if n > 0 {
      VBound(Half(b), n - 1);
    }
  }

  lemma NoBits(a: bv64, b: bv64, c: bv64)
    ensures V(a, 0) == V(b, 0) == V(c, 0) == 0 && Xor(0, 0) == And(0, 0) == Or(0, 0) == 0
  {
  }

  // ---- the operators ----

  function XorWord(a: bv64, b: bv64): bv64 { a ^ b }

  lemma XorBits(a: bv64, b: bv64)
    ensures Half(XorWord(a, b)) == XorWord(Half(a), Half(b))
    ensures Low(XorWord(a, b)) == if Low(a) == Low(b) then 0 else 1
  {
  }

  lemma {:induction false} XorIs(a: bv64, b: bv64, n: nat)
    ensures V(XorWord(a, b), n) == Xor(V(a, n), V(b, n))
    decreases n
  {
    hide *;
    if n > 0 {
      VStep(a, n);
      VStep(b, n);
      VStep(XorWord(a, b), n);
      XorBits(a, b);
      XorIs(Half(a), Half(b), n - 1);
      XorUnfold(V(a, n), V(b, n));
    } else {
      NoBits(a, b, XorWord(a, b));
    }
  }

  function AndWord(a: bv64, b: bv64): bv64 { a & b }

  lemma AndBits(a: bv64, b: bv64)
    ensures Half(AndWord(a, b)) == AndWord(Half(a), Half(b))
    ensures Low(AndWord(a, b)) == if Low(a) == 1 && Low(b) == 1 then 1 else 0
  {
  }

  lemma {:induction false} AndIs(a: bv64, b: bv64, n: nat)
    ensures V(AndWord(a, b), n) == And(V(a, n), V(b, n))
    decreases n
  {
    hide *;
    if n > 0 {
      VStep(a, n);
      VStep(b, n);
      VStep(AndWord(a, b), n);
      AndBits(a, b);
      AndIs(Half(a), Half(b), n - 1);
      AndUnfold(V(a, n), V(b, n));
    } else {
      NoBits(a, b, AndWord(a, b));
    }
  }

  function OrWord(a: bv64, b: bv64): bv64 { a | b }

  lemma OrBits(a: bv64, b: bv64)
    ensures Half(OrWord(a, b)) == OrWord(Half(a), Half(b))
    ensures Low(OrWord(a, b)) == if Low(a) == 0 && Low(b) == 0 then 0 else 1
  {
  }

  lemma {:induction false} OrIs(a: bv64, b: bv64, n: nat)
    ensures V(OrWord(a, b), n) == Or(V(a, n), V(b, n))
    decreases n
  {
    hide *;
    if n > 0 {
      VStep(a, n);
      VStep(b, n);
      VStep(OrWord(a, b), n);
      OrBits(a, b);
      OrIs(Half(a), Half(b), n - 1);
      OrUnfold(V(a, n), V(b, n));
    } else {
      NoBits(a, b, OrWord(a, b));
    }
  }

  // The low n bits of m are ones.
  predicate Ones(m: bv64, n: nat)
    decreases n
  {
    n == 0 || (Low(m) == 1 && Ones(Half(m), n - 1))
  }

  lemma {:induction false} OnesIs(m: bv64, n: nat)
    requires Ones(m, n)
    ensures V(m, n) == Pow(2, n) - 1
    decreases n
  {
    hide Low, Half;
    if n > 0 {
      OnesIs(Half(m), n - 1);
    }
  }

  // Flipping n bits.
  lemma {:induction false} NotIs(a: bv64, m: bv64, n: nat)
    requires Ones(m, n)
    ensures V(XorWord(a, m), n) == Pow(2, n) - 1 - V(a, n)
    decreases n
  {
    hide Low, Half, XorWord;
    if n > 0 {
      XorBits(a, m);
      VStep(a, n);
      VStep(XorWord(a, m), n);
      NotIs(Half(a), Half(m), n - 1);
    }
  }

  lemma EightOnes(m: bv64, n: nat)
    requires m & 0xff == 0xff && Ones(m >> 8, n)
    ensures Ones(m, n + 8)
  {
    assert Ones(m >> 7, n + 1);
    assert Ones(m >> 6, n + 2);
    assert Ones(m >> 5, n + 3);
    assert Ones(m >> 4, n + 4);
    assert Ones(m >> 3, n + 5);
    assert Ones(m >> 2, n + 6);
    assert Ones(m >> 1, n + 7);
  }

  lemma AllOnes()
    ensures Ones(0x7fff_ffff, 31) && Ones(0xffff_ffff, 32)
    ensures Ones(0x7fff_ffff_ffff_ffff, 63) && Ones(0xffff_ffff_ffff_ffff, 64)
  {
    assert Ones(0x7f, 7) && Ones(0xff, 8);
    EightOnes(0x7fff, 7);
    EightOnes(0x7f_ffff, 15);
    EightOnes(0x7fff_ffff, 23);
    EightOnes(0x7f_ffff_ffff, 31);
    EightOnes(0x7fff_ffff_ffff, 39);
    EightOnes(0x7f_ffff_ffff_ffff, 47);
    EightOnes(0x7fff_ffff_ffff_ffff, 55);
    EightOnes(0xffff, 8);
    EightOnes(0xff_ffff, 16);
    EightOnes(0xffff_ffff, 24);
    EightOnes(0xff_ffff_ffff, 32);
    EightOnes(0xffff_ffff_ffff, 40);
    EightOnes(0xff_ffff_ffff_ffff, 48);
    EightOnes(0xffff_ffff_ffff_ffff, 56);
  }

  // Bits above the low n do not matter.
  lemma MaskIs(a: bv64, m: bv64, n: nat)
    requires Ones(m, n)
    ensures V(AndWord(m, a), n) == V(a, n)
  {
    hide And, V, Ones, AndWord;
    AndIs(m, a, n);
    OnesIs(m, n);
    AndMask(V(a, n), n);
    VBound(a, n);
    ModSmall(V(a, n), Pow(2, n));
  }

  // ---- sums ----

  lemma NextBits(b: bv64)
    ensures b & 1 == 1 ==> (b + 1) >> 1 == ((b >> 1) + 1) & 0x7fff_ffff_ffff_ffff
    ensures b & 1 == 0 ==> (b + 1) >> 1 == b >> 1
    ensures (b + 1) & 1 == 1 <==> b & 1 == 0
  {
  }

  lemma NextWord(b: bv64)
    ensures Low(b) == 1 ==> Half(Next(b)) == AndWord(0x7fff_ffff_ffff_ffff, Next(Half(b))) && Low(Next(b)) == 0
    ensures Low(b) == 0 ==> Half(Next(b)) == Half(b) && Low(Next(b)) == 1
  {
    NextBits(b);
  }

  function Next(b: bv64): bv64 { b + 1 }

  lemma {:induction false} NextIs(b: bv64, n: nat)
    requires n <= 64
    ensures Pow(2, n) > 0 && V(Next(b), n) == (V(b, n) + 1) % Pow(2, n)
    decreases n
  {
    hide *;
    PowPositive(2, n);
    if n == 0 {
      VNone(b);
      VNone(Next(b));
    } else {
      VStep(b, n);
      VStep(Next(b), n);
      NextWord(b);
      PowStep(n);
      VBound(b, n);
      VBound(Half(b), n - 1);
      if Low(b) == 1 {
        OnesDown(n - 1);
        MaskIs(Next(Half(b)), 0x7fff_ffff_ffff_ffff, n - 1);
        NextIs(Half(b), n - 1);
        WrapDouble(V(Half(b), n - 1), Pow(2, n - 1));
      } else {
        ModSmall(V(b, n) + 1, Pow(2, n));
      }
    }
  }

  lemma VNone(b: bv64)
    ensures V(b, 0) == 0 && Pow(2, 0) == 1
  {
  }

  lemma PowStep(n: nat)
    requires n > 0
    ensures Pow(2, n) == 2 * Pow(2, n - 1) && Pow(2, n - 1) > 0
  {
    PowPositive(2, n - 1);
  }

  lemma WrapDouble(v: int, p: int)
    requires 0 <= v < p
    ensures 2 * ((v + 1) % p) == (2 * v + 1 + 1) % (2 * p)
  {
    if v + 1 == p {
      DivModUnique(2 * p, 2 * p, 1, 0);
      DivModUnique(p, p, 1, 0);
    } else {
      ModSmall(v + 1, p);
      ModSmall(2 * v + 2, 2 * p);
    }
  }

  lemma {:induction false} OnesFewer(m: bv64, n: nat, k: nat)
    requires Ones(m, n) && k <= n
    ensures Ones(m, k)
    decreases k
  {
    hide Low, Half;
    if k > 0 {
      OnesFewer(Half(m), n - 1, k - 1);
    }
  }

  lemma OnesDown(n: nat)
    requires n <= 63
    ensures Ones(0x7fff_ffff_ffff_ffff, n)
  {
    AllOnes();
    OnesFewer(0x7fff_ffff_ffff_ffff, 63, n);
  }

  // As a function, so that a use of it is about the very word it is applied to.
  ghost function Incremented(b: bv64, n: nat): (done: bool)
    requires n <= 64
    ensures done && Pow(2, n) > 0 && V(b + 1, n) == (V(b, n) + 1) % Pow(2, n)
  {
    NextIs(b, n);
    true
  }

  // One more on both sides.
  lemma {:induction false} SumNext(a: bv64, b: bv64, n: nat)
    requires n <= 64 && Pow(2, n) > 0
    requires V(a + (b - 1), n) == (V(a, n) + V(b - 1, n)) % Pow(2, n)
    ensures V(a + b, n) == (V(a, n) + V(b, n)) % Pow(2, n)
  {
    hide *;
    assert Incremented(a + (b - 1), n);
    assert Incremented(b - 1, n);
    ModTwice(V(a, n), V(b - 1, n), Pow(2, n));
  }

  ghost function Summed(a: bv64, b: bv64, n: nat): (done: bool)
    requires n <= 64
    ensures done && Pow(2, n) > 0 && V(a + b, n) == (V(a, n) + V(b, n)) % Pow(2, n)
    decreases b
  {
    PowPositive(2, n);
    if b == 0 then SumZero(a, b, n); true
    else var before := Summed(a, b - 1, n); SumNext(a, b, n); true
  }

  /** The sum of words is the sum of numbers, cut to the width. */
  lemma SumIs(a: bv64, b: bv64, n: nat)
    requires n <= 64
    ensures Pow(2, n) > 0 && V(a + b, n) == (V(a, n) + V(b, n)) % Pow(2, n)
  {
    assert Summed(a, b, n);
  }

  lemma SumZero(a: bv64, b: bv64, n: nat)
    requires b == 0
    ensures Pow(2, n) > 0 && V(a + b, n) == (V(a, n) + V(b, n)) % Pow(2, n)
  {
    hide *;
    assert a + b == a;
    VZero(n);
    VBound(a, n);
    PowPositive(2, n);
    ModSmall(V(a, n), Pow(2, n));
  }

  lemma ModPlus(x: int, y: int, p: int)
    requires p > 0
    ensures (x % p + y) % p == (x + y) % p
  {
    var q := x / p;
    assert x % p + y == x + y + (-q) * p;
    ModAddMultiple(x + y, -q, p);
  }

  lemma ModTwice(x: int, y: int, p: int)
    requires p > 0
    ensures ((x + y) % p + 1) % p == (x + (y + 1) % p) % p
  {
    ModPlus(x + y, 1, p);
    ModPlus(y + 1, x, p);
  }

  lemma {:induction false} VZero(n: nat)
    ensures V(0, n) == 0
  {
    if n > 0 {
      VZero(n - 1);
      assert (0 as bv64) >> 1 == 0;
    }
  }

  // ---- shifts ----

  function Down(b: bv64, k: nat): bv64
    decreases k
  {
    if k == 0 then b else Down(Half(b), k - 1)
  }

  function Up(b: bv64, k: nat): bv64
    decreases k
  {
    if k == 0 then b else Up(b << 1, k - 1)
  }

  lemma {:induction false} VTop(b: bv64, n: nat)
    ensures V(b, n + 1) == V(b, n) + Pow(2, n) * Low(Down(b, n))
    decreases n
  {
    hide Low, Half;
    VStep(b, n + 1);
    if n > 0 {
      VTop(Half(b), n - 1);
      VStep(b, n);
      DoubledTop(Pow(2, n - 1), Low(Down(b, n)));
    }
  }

  lemma DoubledTop(p: int, i: int)
    ensures 2 * (p * i) == (2 * p) * i
  {
  }

  // m has no bits at n or above.
  predicate Shrinks(m: bv64, n: nat)
    decreases n
  {
    if n == 0 then m == 0 else Shrinks(m >> 1, n - 1)
  }

  lemma EightDown(m: bv64, n: nat)
    requires Shrinks(m >> 8, n)
    ensures Shrinks(m, n + 8)
  {
    assert Shrinks(m >> 7, n + 1);
    assert Shrinks(m >> 6, n + 2);
    assert Shrinks(m >> 5, n + 3);
    assert Shrinks(m >> 4, n + 4);
    assert Shrinks(m >> 3, n + 5);
    assert Shrinks(m >> 2, n + 6);
    assert Shrinks(m >> 1, n + 7);
  }

  lemma AllShrink()
    ensures Shrinks(0xffff_ffff, 32) && Shrinks(0xffff_ffff_ffff_ffff, 64)
  {
    EightDown(0xff, 0);
    EightDown(0xffff, 8);
    EightDown(0xff_ffff, 16);
    EightDown(0xffff_ffff, 24);
    EightDown(0xff_ffff_ffff, 32);
    EightDown(0xffff_ffff_ffff, 40);
    EightDown(0xff_ffff_ffff_ffff, 48);
    EightDown(0xffff_ffff_ffff_ffff, 56);
  }

  lemma {:induction false} DownGone(b: bv64, m: bv64, n: nat)
    requires b & m == b && Shrinks(m, n)
    ensures Low(Down(b, n)) == 0
    decreases n
  {
    if n > 0 {
      HalfWithin(b, m);
      DownGone(Half(b), m >> 1, n - 1);
    }
  }

  lemma HalfWithin(b: bv64, m: bv64)
    requires b & m == b
    ensures Half(b) & (m >> 1) == Half(b)
  {
  }

  // A word of n bits.
  predicate Fits(b: bv64, n: nat) { n == 64 || (n == 32 && b & 0xffff_ffff == b) }

  lemma NothingAbove(b: bv64, n: nat)
    requires Fits(b, n)
    ensures Low(Down(b, n)) == 0
  {
    hide Down, Low, Shrinks;
    AllShrink();
    if n == 64 {
      DownGone(b, 0xffff_ffff_ffff_ffff, 64);
    } else {
      DownGone(b, 0xffff_ffff, 32);
    }
  }

  lemma HalfFits(b: bv64, n: nat)
    requires Fits(b, n)
    ensures Fits(Half(b), n)
  {
  }

  lemma HalfIs(b: bv64, n: nat)
    requires Fits(b, n)
    ensures V(Half(b), n) == V(b, n) / 2 && Fits(Half(b), n)
  {
    hide Low, Half, V, Down, Fits;
    NothingAbove(b, n);
    HalfFits(b, n);
    VTop(b, n);
    VStep(b, n + 1);
  }

  /** Shifting right divides. */
  lemma {:induction false} DownIs(b: bv64, n: nat, k: nat)
    requires Fits(b, n)
    ensures Pow(2, k) > 0 && V(Down(b, k), n) == V(b, n) / Pow(2, k)
    decreases k
  {
    hide Low, Half, V, Fits;
    PowPositive(2, k);
    if k > 0 {
      HalfIs(b, n);
      DownIs(Half(b), n, k - 1);
      DivHalf(V(b, n), Pow(2, k - 1));
    }
  }

  lemma DivHalf(v: int, p: int)
    requires p > 0
    ensures v / 2 / p == v / (2 * p)
  {
    var q, r := v / 2 / p, v / 2 % p;
    assert v == 2 * (q * p + r) + v % 2;
    assert q * (2 * p) == 2 * (q * p);
    DivModUnique(v, 2 * p, q, 2 * r + v % 2);
  }

  lemma DoubleIs(b: bv64, n: nat)
    requires n <= 64
    ensures Pow(2, n) > 0 && V(b << 1, n) == 2 * V(b, n) % Pow(2, n)
  {
    hide *;
    SumIs(b, b, n);
    assert b << 1 == b + b;
  }

  /** Shifting left multiplies, cut to the width. */
  lemma {:induction false} UpIs(b: bv64, n: nat, k: nat)
    requires n <= 64
    ensures Pow(2, n) > 0 && V(Up(b, k), n) == V(b, n) * Pow(2, k) % Pow(2, n)
    decreases k
  {
    hide Low, Half, V;
    PowPositive(2, n);
    if k == 0 {
      VBound(b, n);
      ModSmall(V(b, n), Pow(2, n));
    } else {
      UpIs(b << 1, n, k - 1);
      DoubleIs(b, n);
      UpMore(V(b, n), Pow(2, k - 1), Pow(2, n));
    }
  }

  lemma UpMore(v: int, p: int, m: int)
    requires m > 0
    ensures 2 * v % m * p % m == v * (2 * p) % m
  {
    ModMulLeft(2 * v, p, m);
    assert (2 * v) * p == v * (2 * p);
  }

  // ---- shifts by constants, a few places at a time ----

  // As functions, so that a use of them is about the very word they are applied to.
  ghost function UpOne(w: bv64, k: nat): (done: bool)
    ensures done && Up(w, k + 1) == Up(w << 1, k)
  {
    true
  }

  ghost function UpTwo(w: bv64, k: nat): (done: bool)
    ensures done && Up(w, k + 2) == Up(w << 2, k)
  {
    true
  }

  ghost function UpEight(w: bv64, k: nat): (done: bool)
    ensures done && Up(w, k + 8) == Up(w << 8, k)
  {
    hide Up;
    assert UpTwo(w, k + 6) && UpTwo(w << 2, k + 4) && UpTwo(w << 4, k + 2) && UpTwo(w << 6, k);
    true
  }

  lemma UpNone(w: bv64)
    ensures Up(w, 0) == w
  {
  }

  ghost function DownOne(w: bv64, k: nat): (done: bool)
    ensures done && Down(w, k + 1) == Down(w >> 1, k)
  {
    true
  }

  ghost function DownTwo(w: bv64, k: nat): (done: bool)
    ensures done && Down(w, k + 2) == Down(w >> 2, k)
  {
    true
  }

  ghost function DownEight(w: bv64, k: nat): (done: bool)
    ensures done && Down(w, k + 8) == Down(w >> 8, k)
  {
    hide Down;
    assert DownTwo(w, k + 6) && DownTwo(w >> 2, k + 4) && DownTwo(w >> 4, k + 2) && DownTwo(w >> 6, k);
    true
  }

  lemma DownNone(w: bv64)
    ensures Down(w, 0) == w
  {
  }

  // ---- bytes ----

  ghost function BitsOfByte(b: byte): (done: bool)
    ensures done && b as int == Bit0(b) + 2 * Bit0(b >> 1) + 4 * Bit0(b >> 2) + 8 * Bit0(b >> 3)
      + 16 * Bit0(b >> 4) + 32 * Bit0(b >> 5) + 64 * Bit0(b >> 6) + 128 * Bit0(b >> 7)
  {
    true
  }

  function Bit0(b: byte): int { if b & 1 == 1 then 1 else 0 }

  ghost function VTwo(w: bv64, n: nat): (done: bool)
    ensures done && V(w, n + 2) == Low(w) + 2 * Low(w >> 1) + 4 * V(w >> 2, n)
  {
    true
  }

  lemma ByteLow(w: bv64, n: nat)
    ensures V(w, n + 8) == EightLow(w) + 256 * V(w >> 8, n)
  {
    hide V, Low;
    assert VTwo(w, n + 6) && VTwo(w >> 2, n + 4) && VTwo(w >> 4, n + 2) && VTwo(w >> 6, n);
  }

  function ByteOf(w: bv64): byte { (w & 0xff) as byte }

  ghost function EightLow(w: bv64): int
  {
    Low(w) + 2 * Low(w >> 1) + 4 * Low(w >> 2) + 8 * Low(w >> 3)
    + 16 * Low(w >> 4) + 32 * Low(w >> 5) + 64 * Low(w >> 6) + 128 * Low(w >> 7)
  }

  lemma LowByteIs(w: bv64)
    ensures EightLow(w) == ByteOf(w) as int
  {
    assert BitsOfByte(ByteOf(w));
  }

  ghost function ByteSplit(w: bv64, n: nat): (done: bool)
    ensures done && V(w, n + 8) == ByteOf(w) as int + 256 * V(w >> 8, n)
  {
    hide *;
    ByteLow(w, n);
    LowByteIs(w);
    true
  }
}
