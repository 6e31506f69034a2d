/** Powers and remainders: the arithmetic shared by the limb proofs. */
module Arith {

  function Pow(b: nat, n: nat): (r: int)
    ensures r >= 0
  {
    if n == 0 then 1 else b * Pow(b, n - 1)
  }

  lemma {:induction false} PowAdd(b: nat, m: nat, n: nat)
    ensures Pow(b, m + n) == Pow(b, m) * Pow(b, n)
  {
    if m == 0 {
    } else {
      PowAdd(b, m - 1, n);
      var x, y := Pow(b, m - 1), Pow(b, n);
      assert b * (x * y) == (b * x) * y;
    }
  }

  lemma {:induction false} PowPositive(b: nat, n: nat)
    requires b > 0
    ensures Pow(b, n) > 0
  {
    if n > 0 {
      PowPositive(b, n - 1);
    }
  }

  // (b^m)^n = b^(m*n)
  lemma {:induction false} PowPow(b: nat, m: nat, n: nat)
    ensures m * n >= 0
    ensures Pow(Pow(b, m), n) == Pow(b, m * n)
  {
    if n == 0 {
    } else {
      PowPow(b, m, n - 1);
      assert m * n == m + m * (n - 1);
      PowAdd(b, m, m * (n - 1));
    }
  }

  lemma MulMono(a: int, x: int, y: int)
    requires 0 <= a && x <= y
    ensures a * x <= a * y
  {
  }

  // Only the zero multiple of m lies strictly between -m and m.
  lemma SmallMultiple(d: int, m: int)
    requires m > 0 && -m < d * m < m
    ensures d == 0
  {
    if d >= 1 {
      MulMono(m, 1, d);
    } else if d <= -1 {
      MulMono(m, d, -1);
    }
  }

  // The quotient and remainder are determined by the division identity.
  lemma DivModUnique(x: int, m: int, q: int, r: int)
    requires m > 0 && x == q * m + r && 0 <= r < m
    ensures x / m == q && x % m == r
  {
    var q', r' := x / m, x % m;
    var d := q - q';
    assert d * m == r' - r;
    SmallMultiple(d, m);
  }

  lemma ModAddMultiple(x: int, k: int, m: int)
    requires m > 0
    ensures (x + k * m) % m == x % m
  {
    var q := x / m;
    assert x + k * m == (q + k) * m + x % m by {
      assert (q + k) * m == q * m + k * m;
    }
    DivModUnique(x + k * m, m, q + k, x % m);
  }

  lemma ModAdd(x: int, y: int, m: int)
    requires m > 0
    ensures (x % m + y % m) % m == (x + y) % m
  {
    var qx, qy := x / m, y / m;
    assert x + y == x % m + y % m + (qx + qy) * m by {
      assert (qx + qy) * m == qx * m + qy * m;
    }
    ModAddMultiple(x % m + y % m, qx + qy, m);
  }

  lemma ModSub(x: int, y: int, m: int)
    requires m > 0
    ensures (x % m - y % m) % m == (x - y) % m
  {
    var qx, qy := x / m, y / m;
    assert x - y == x % m - y % m + (qx - qy) * m by {
      assert (qx - qy) * m == qx * m - qy * m;
    }
    ModAddMultiple(x % m - y % m, qx - qy, m);
  }

  lemma ModMul(x: int, y: int, m: int)
    requires m > 0
    ensures ((x % m) * (y % m)) % m == (x * y) % m
  {
    var qx, rx, qy, ry := x / m, x % m, y / m, y % m;
    var k := qx * ry + qy * rx + qx * qy * m;
    assert x * y == rx * ry + k * m by {
      assert x * y == (qx * m + rx) * (qy * m + ry);
      assert (qx * m + rx) * (qy * m + ry) == (qx * m) * (qy * m) + (qx * m) * ry + rx * (qy * m) + rx * ry;
      assert (qx * m) * (qy * m) == (qx * qy * m) * m;
      assert (qx * m) * ry == (qx * ry) * m;
      assert rx * (qy * m) == (qy * rx) * m;
      assert k * m == (qx * ry) * m + (qy * rx) * m + (qx * qy * m) * m;
    }
    ModAddMultiple(rx * ry, k, m);
  }

  // Replacing one factor by its residue does not change a product's residue.
  lemma ModMulLeft(x: int, y: int, m: int)
    requires m > 0
    ensures ((x % m) * y) % m == (x * y) % m
  {
    var k := x / m;
    assert x * y == (x % m) * y + (k * y) * m by {
      assert (k * m) * y == (k * y) * m;
      assert (k * m + x % m) * y == (k * m) * y + (x % m) * y;
    }
    ModAddMultiple((x % m) * y, k * y, m);
  }

  // Two numbers in [0, m) with the same residue are the same number.
  lemma ModSmall(x: int, m: int)
    requires 0 <= x < m
    ensures x % m == x
  {
    DivModUnique(x, m, 0, x);
  }

  lemma DivDiv(x: int, a: int, b: int)
    requires a > 0 && b > 0
    ensures a * b > 0
    ensures x / (a * b) == x / a / b
  {
    MulMono(b, 1, a);
    var q, r := x / a, x % a;
    var q2, r2 := q / b, q % b;
    MulMono(a, 0, r2);
    MulMono(a, r2, b - 1);
    assert a * (b - 1) == a * b - a;
    assert x == (q2 * b + r2) * a + r;
    assert (q2 * b + r2) * a == q2 * (a * b) + a * r2;
    DivModUnique(x, a * b, q2, a * r2 + r);
  }

  lemma DivTwice(v: int, p: int)
    requires p > 0
    ensures v / p / 256 == v / (256 * p)
  {
    var q, r := v / p, v % p;
    var q2, r2 := q / 256, q % 256;
    assert v == (q2 * 256 + r2) * p + r;
    assert (q2 * 256 + r2) * p == q2 * (256 * p) + r2 * p;
    MulMono(p, r2, 255);
    MulMono(p, 0, r2);
    DivModUnique(v, 256 * p, q2, r2 * p + r);
  }

  // A column of base-256 digits with its carry.
  lemma Column(d: int, u: int, p: int)
    ensures (u + d) % 256 * p + (u + d) / 256 * (256 * p) == u * p + d * p
  {
    var t := u + d;
    assert t == t / 256 * 256 + t % 256;
    assert t / 256 * (256 * p) == (t / 256 * 256) * p;
    assert (t / 256 * 256) * p + t % 256 * p == t * p;
  }
}
