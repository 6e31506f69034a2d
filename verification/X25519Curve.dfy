/** What the ladder of section 5 of RFC 7748 computes: the doubling and differential addition formulas of the curve
    v^2 = u^3 + 486662 u^2 + u, put together so that they multiply by the scalar. */
module X25519Curve {
  import opened Arith
  import opened Field25519
  import opened X25519

  // ---- one step, as polynomials ----

  function Square(x: int): int { x * x }

  // (x : z) doubled.
  function DoubleX(x: int, z: int): int { Square(x * x - z * z) % P }

  function DoubleZ(x: int, z: int): int { 4 * (x * z) * (x * x + 486662 * (x * z) + z * z) % P }

  // The sum of (x2 : z2) and (x3 : z3), whose difference is (x1 : 1).
  function AddX(x2: int, z2: int, x3: int, z3: int): int { 4 * Square(x2 * x3 - z2 * z3) % P }

  function AddZ(x1: int, x2: int, z2: int, x3: int, z3: int): int { 4 * x1 * Square(x2 * z3 - z2 * x3) % P }

  lemma Residue(x: int, y: int)
    ensures FMul(x % P, y % P) == x * y % P
    ensures FAdd(x % P, y % P) == (x + y) % P && FSub(x % P, y % P) == (x - y) % P
  {
    ModMul(x, y, P);
    ModAdd(x, y, P);
    ModSub(x, y, P);
  }

  lemma SumAndDifference(x: int, z: int)
    ensures (x + z) * (x + z) - (x - z) * (x - z) == 4 * (x * z)
    ensures (x + z) * (x + z) == x * x + 2 * (x * z) + z * z
    ensures (x + z) * (x + z) * ((x - z) * (x - z)) == Square(x * x - z * z)
  {
    assert (x + z) * (x - z) == x * x - z * z;
    Regroup(x + z, x - z);
  }

  lemma Regroup(a: int, b: int)
    ensures a * a * (b * b) == Square(a * b)
  {
    assert a * a * (b * b) == a * b * (a * b);
  }

  lemma CrossProducts(x2: int, z2: int, x3: int, z3: int)
    ensures (x3 - z3) * (x2 + z2) + (x3 + z3) * (x2 - z2) == 2 * (x2 * x3 - z2 * z3)
    ensures (x3 - z3) * (x2 + z2) - (x3 + z3) * (x2 - z2) == -2 * (x2 * z3 - z2 * x3)
  {
  }

  lemma Twice(d: int)
    ensures 2 * d * (2 * d) == 4 * Square(d) && -2 * d * (-2 * d) == 4 * Square(d)
  {
  }

  /** For all registers the step doubles (x2 : z2). */
  lemma StepDoubles(x1: nat, s: Ladder)
    ensures Step(x1, s).x2 == DoubleX(s.x2, s.z2) && Step(x1, s).z2 == DoubleZ(s.x2, s.z2)
  {
    hide FAdd, FMul, FSub;
    var x: int, z: int := s.x2, s.z2;
    var a, b := x + z, x - z;
    assert FAdd(x, z) == a % P && FSub(x, z) == b % P by { Sums(x, z); }
    Residue(a, a);
    Residue(b, b);
    Residue(a * a, b * b);
    var e := a * a - b * b;
    Residue(121665, e);
    assert 121665 % P == 121665;
    Residue(a * a, 121665 * e);
    Residue(e, a * a + 121665 * e);
    SumAndDifference(x, z);
    assert a * a + 121665 * e == x * x + 486662 * (x * z) + z * z;
  }

  lemma Sums(x: int, z: int)
    ensures FAdd(x, z) == (x + z) % P && FSub(x, z) == (x - z) % P
  {
  }

  /** And it adds (x3 : z3), whose difference from (x2 : z2) is x1. */
  lemma StepAdds(x1: nat, s: Ladder)
    ensures Step(x1, s).x3 == AddX(s.x2, s.z2, s.x3, s.z3)
    ensures Step(x1, s).z3 == AddZ(x1, s.x2, s.z2, s.x3, s.z3)
  {
    hide FAdd, FMul, FSub;
    Sums(s.x2, s.z2);
    Sums(s.x3, s.z3);
    var da, cb := (s.x3 - s.z3) * (s.x2 + s.z2), (s.x3 + s.z3) * (s.x2 - s.z2);
    Residue(s.x3 - s.z3, s.x2 + s.z2);
    Residue(s.x3 + s.z3, s.x2 - s.z2);
    Residue(da, cb);
    Residue(da + cb, da + cb);
    Residue(da - cb, da - cb);
    CrossProducts(s.x2, s.z2, s.x3, s.z3);
    Twice(s.x2 * s.x3 - s.z2 * s.z3);
    Twice(s.x2 * s.z3 - s.z2 * s.x3);
    LastFactor(x1, (da - cb) * (da - cb), Square(s.x2 * s.z3 - s.z2 * s.x3));
  }

  lemma LastFactor(x1: int, d: int, q: int)
    requires d == 4 * q
    ensures FMul(x1, d % P) == 4 * x1 * q % P
  {
    Commute(x1, d % P);
    ModMulLeft(d, x1, P);
    assert d * x1 == 4 * x1 * q;
  }

  // ---- the ladder multiplies ----

  // multiple(n, x, z): the fraction x : z stands for the u-coordinate of n times the point.
  type Multiples = (nat, int, int) -> bool

  // It holds of the identity and the point, and obeys the curve's two formulas.
  ghost predicate CurveLaws(multiple: Multiples, u: nat)
  {
    && multiple(0, 1, 0) && multiple(1, u, 1)
    && (forall n: nat, x, z :: multiple(n, x, z) ==> multiple(2 * n, DoubleX(x, z), DoubleZ(x, z)))
    && forall n: nat, x2, z2, x3, z3 :: multiple(n, x2, z2) && multiple(n + 1, x3, z3) ==>
      multiple(2 * n + 1, AddX(x2, z2, x3, z3), AddZ(u, x2, z2, x3, z3))
  }

  // The registers stand for n and n + 1 times the point.
  ghost predicate Neighbours(multiple: Multiples, n: nat, s: Ladder)
  {
    multiple(n, s.x2, s.z2) && multiple(n + 1, s.x3, s.z3)
  }

  lemma AddsEitherWay(u: int, x2: int, z2: int, x3: int, z3: int)
    ensures AddX(x2, z2, x3, z3) == AddX(x3, z3, x2, z2)
    ensures AddZ(u, x2, z2, x3, z3) == AddZ(u, x3, z3, x2, z2)
  {
    assert x2 * x3 == x3 * x2 && z2 * z3 == z3 * z2 && x2 * z3 == z3 * x2 && z2 * x3 == x3 * z2;
    Opposite(x2 * z3 - z2 * x3);
  }

  lemma Opposite(d: int)
    ensures Square(-d) == Square(d)
  {
  }

  // One bit of the scalar.
  lemma StepMultiplies(multiple: Multiples, u: nat, n: nat, s: Ladder, bit: int)
    requires CurveLaws(multiple, u) && Neighbours(multiple, n, s) && 0 <= bit <= 1
    ensures Neighbours(multiple, 2 * n + bit, CSwap(bit, Step(u, CSwap(bit, s))))
  {
    hide Step, DoubleX, DoubleZ, AddX, AddZ;
    var t := CSwap(bit, s);
    StepDoubles(u, t);
    StepAdds(u, t);
    AddsEitherWay(u, s.x2, s.z2, s.x3, s.z3);
    assert 2 * (n + 1) == 2 * n + 2;
  }

  lemma ScalarPrefix(k: int, t: nat)
    requires k >= 0
    ensures Pow(2, t) > 0 && Pow(2, t + 1) > 0
    ensures k / Pow(2, t) == 2 * (k / Pow(2, t + 1)) + ScalarBit(k, t) && 0 <= ScalarBit(k, t) <= 1
  {
    PowPositive(2, t);
    PowPositive(2, t + 1);
    var p := Pow(2, t);
    var q, r := k / p / 2, k / p % 2;
    assert k == (2 * q + r) * p + k % p;
    assert (2 * q + r) * p == q * (2 * p) + r * p;
    MulMono(p, r, 1);
    DivModUnique(k, 2 * p, q, r * p + k % p);
  }

  // After the bits down to t the registers, swapped as is pending, stand for the scalar's bits so far.
  lemma {:induction false} LadderMultiplies(multiple: Multiples, k: nat, u: nat, t: nat)
    requires CurveLaws(multiple, u) && t <= 255 && k < Pow(2, 255)
    ensures Pow(2, t) > 0 && 0 <= k / Pow(2, t)
    ensures var (s, swap) := RfcLadder(k, u, t); Neighbours(multiple, k / Pow(2, t), CSwap(swap, s))
    decreases 255 - t
  {
    hide Step, CurveLaws, Neighbours, ScalarBit, Pow;
    PowPositive(2, t);
    if t == 255 {
      DivModUnique(k, Pow(2, 255), 0, k);
      LadderStarts(multiple, k, u);
    } else {
      LadderMultiplies(multiple, k, u, t + 1);
      ScalarPrefix(k, t);
      var (s, swap) := RfcLadder(k, u, t + 1);
      var bit := ScalarBit(k, t);
      PendingSwap(k, u, t + 1);
      DeferredSwap(s, swap, bit);
      StepMultiplies(multiple, u, k / Pow(2, t + 1), CSwap(swap, s), bit);
    }
  }

  lemma LadderStarts(multiple: Multiples, k: nat, u: nat)
    requires CurveLaws(multiple, u)
    ensures RfcLadder(k, u, 255) == (Ladder(1, 0, u, 1), 0) && Neighbours(multiple, 0, Ladder(1, 0, u, 1))
  {
  }

  // ---- the quotient ----

  lemma Quotient(x: nat, z: nat)
    ensures Pow(z, P - 1) % P == 1 ==> FMul(FMul(x, Pow(z, P - 2) % P), z) == x % P
    ensures z % P == 0 ==> FMul(x, Pow(z, P - 2) % P) == 0
  {
    hide Pow;
    var i := Pow(z, P - 2);
    LastPower(z);
    Inverted(x, z, i);
    if z % P == 0 {
      PowerOfZero(z);
      assert x * 0 % P == 0;
    }
  }

  // i stands for the inverse of z.
  lemma Inverted(x: nat, z: nat, i: nat)
    ensures z * i % P == 1 ==> FMul(FMul(x, i % P), z) == x % P
  {
    var m := i % P;
    assert x * m == m * x;
    ModMulLeft(i, x, P);
    ModMulLeft(i * x, z, P);
    assert i * x * z == z * i * x;
    if z * i % P == 1 {
      ModMulLeft(z * i, x, P);
    }
  }

  lemma LastPower(z: nat)
    ensures Pow(z, P - 1) == z * Pow(z, P - 2)
  {
  }

  lemma PowerOfZero(z: nat)
    requires z % P == 0
    ensures Pow(z, P - 2) % P == 0
  {
    assert Pow(z, P - 2) == z * Pow(z, P - 3);
    ModMulLeft(z, Pow(z, P - 3), P);
  }

  /** X25519 is the quotient of a fraction that stands for k times the point, whatever "stands for" is, as long as
      it obeys the doubling and addition formulas. (A denominator that is a multiple of P gives 0; for any other
      Fermat's theorem gives the premise of the first case.) */
  lemma ScalarMultiple(multiple: Multiples, k: nat, u: nat) returns (x: nat, z: nat)
    requires CurveLaws(multiple, u) && k < Pow(2, 255)
    ensures multiple(k, x, z)
    ensures Pow(z, P - 1) % P == 1 ==> FMul(Rfc7748(k, u), z) == x % P
    ensures z % P == 0 ==> Rfc7748(k, u) == 0
  {
    hide Step, CurveLaws, Pow, FMul;
    LadderMultiplies(multiple, k, u, 0);
    PowZero();
    var (s, swap) := RfcLadder(k, u, 0);
    x, z := CSwap(swap, s).x2, CSwap(swap, s).z2;
    Quotient(x, z);
  }

  lemma PowZero()
    ensures Pow(2, 0) == 1
  {
  }
}
