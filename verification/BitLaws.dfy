/** Bit i of a number, and what the operators, shifts and rotations do to it. */
module BitLaws {
  import opened Arith
  import opened Bits

  function Bit(x: int, i: nat): (b: int)
    ensures 0 <= b <= 1
  {
    PowPositive(2, i);
    x / Pow(2, i) % 2
  }

  lemma BitStep(x: int, i: nat)
    ensures Bit(x, 0) == x % 2
    ensures i > 0 ==> Bit(x, i) == Bit(x / 2, i - 1)
  {
    if i > 0 {
      PowPositive(2, i - 1);
      DivDiv(x, 2, Pow(2, i - 1));
    }
  }

  lemma DivDiv(x: int, a: int, b: int)
    requires a > 0 && b > 0
    ensures a * b > 0 && x / a / b == x / (a * b)
  {
    MulMono(a, 1, b);
    var q, r := x / a / b, x / a % b;
    assert x == (q * b + r) * a + x % a;
    assert (q * b + r) * a == q * (a * b) + r * a;
    MulMono(a, r, b - 1);
    MulMono(a, 0, r);
    assert a * (b - 1) == a * b - a;
    DivModUnique(x, a * b, q, r * a + x % a);
  }

  // ---- operators ----

  lemma {:induction false} XorBit(x: int, y: int, i: nat)
    ensures Bit(Xor(x, y), i) == (Bit(x, i) + Bit(y, i)) % 2
    decreases i
  {
    hide Xor, Bit;
    XorUnfold(x, y);
    BitStep(Xor(x, y), i);
    BitStep(x, i);
    BitStep(y, i);
    if i > 0 {
      XorBit(x / 2, y / 2, i - 1);
    }
  }

  lemma {:induction false} AndBit(x: int, y: int, i: nat)
    ensures Bit(And(x, y), i) == Bit(x, i) * Bit(y, i)
    decreases i
  {
    hide And, Bit;
    AndUnfold(x, y);
    BitStep(And(x, y), i);
    BitStep(x, i);
    BitStep(y, i);
    if i > 0 {
      AndBit(x / 2, y / 2, i - 1);
    }
  }

  lemma {:induction false} OrBit(x: int, y: int, i: nat)
    ensures Bit(Or(x, y), i) == if Bit(x, i) == 1 || Bit(y, i) == 1 then 1 else 0
    decreases i
  {
    hide Or, Bit;
    OrUnfold(x, y);
    BitStep(Or(x, y), i);
    BitStep(x, i);
    BitStep(y, i);
    if i > 0 {
      OrBit(x / 2, y / 2, i - 1);
    }
  }

  // Every one of the n bits flipped.
  lemma {:induction false} NotBit(x: int, n: nat, i: nat)
    requires i < n
    ensures Bit(Pow(2, n) - 1 - x, i) == 1 - Bit(x, i)
    decreases i
  {
    hide Bit;
    var y := Pow(2, n) - 1 - x;
    BitStep(y, i);
    BitStep(x, i);
    assert y == 2 * (Pow(2, n - 1) - 1 - x / 2) + (1 - x % 2);
    if i > 0 {
      NotBit(x / 2, n - 1, i - 1);
    }
  }

  // ---- shifts ----

  lemma ShiftRightBit(x: int, c: nat, i: nat)
    ensures Pow(2, c) > 0 && Bit(x / Pow(2, c), i) == Bit(x, i + c)
  {
    PowPositive(2, c);
    PowPositive(2, i);
    DivDiv(x, Pow(2, c), Pow(2, i));
    PowAdd(2, c, i);
  }

  lemma {:induction false} ShiftLeftBit(x: int, c: nat, i: nat)
    ensures Bit(x * Pow(2, c), i) == if i < c then 0 else Bit(x, i - c)
    decreases c
  {
    hide Bit;
    if c > 0 {
      var y := x * Pow(2, c - 1);
      assert x * Pow(2, c) == 2 * y;
      BitStep(2 * y, i);
      if i > 0 {
        ShiftLeftBit(x, c - 1, i - 1);
      }
    }
  }

  lemma {:induction false} CutBit(x: int, n: nat, i: nat)
    ensures Pow(2, n) > 0 && Bit(x % Pow(2, n), i) == if i < n then Bit(x, i) else 0
    decreases n
  {
    hide Bit;
    PowPositive(2, n);
    var y := x % Pow(2, n);
    if n == 0 {
      NoBits(i);
    } else {
      PowPositive(2, n - 1);
      HalfMod(x, Pow(2, n - 1));
      BitStep(y, i);
      BitStep(x, i);
      if i > 0 {
        CutBit(x / 2, n - 1, i - 1);
      }
    }
  }

  lemma NoBits(i: nat)
    ensures Bit(0, i) == 0
  {
    PowPositive(2, i);
    DivModUnique(0, Pow(2, i), 0, 0);
  }

  // A number below 2^n has no bit at n or above.
  lemma HighBit(x: int, n: nat, i: nat)
    requires 0 <= x < Pow(2, n) && i >= n
    ensures Bit(x, i) == 0
  {
    hide Bit;
    ModSmall(x, Pow(2, n));
    CutBit(x, n, i);
  }

  /** Left part and right part of a rotation to the right: bit i is bit i + c of the word, around the end. */
  lemma RotateBit(x: int, n: nat, c: nat, i: nat)
    requires 0 <= x < Pow(2, n) && c <= n && i < n
    ensures Pow(2, c) > 0
    ensures Bit(Or(x / Pow(2, c), x * Pow(2, n - c) % Pow(2, n)), i) == Bit(x, if i + c < n then i + c else i + c - n)
  {
    hide Bit;
    PowPositive(2, c);
    PowPositive(2, n);
    OrBit(x / Pow(2, c), x * Pow(2, n - c) % Pow(2, n), i);
    ShiftRightBit(x, c, i);
    CutBit(x * Pow(2, n - c), n, i);
    ShiftLeftBit(x, n - c, i);
    if i + c >= n {
      HighBit(x, n, i + c);
    }
  }

  lemma OrSwap(x: int, y: int)
    ensures Or(x, y) == Or(y, x)
    decreases Mag(x) + Mag(y)
  {
    if Mag(x) != 0 || Mag(y) != 0 {
      OrSwap(x / 2, y / 2);
    }
  }
}
