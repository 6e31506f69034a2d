/** Little-endian limb vectors: the value of a sequence of (possibly signed,
    possibly oversized) limbs in a given base, and its behaviour under update. */
module Limbs {
  import opened Arith

  function Val(s: seq<int>, b: nat): int
  {
    if s == [] then 0 else s[0] + b * Val(s[1..], b)
  }

  // Every limb is a digit of the base.
  predicate Digits(s: seq<int>, b: nat)
  {
    forall i :: 0 <= i < |s| ==> 0 <= s[i] < b
  }

  predicate Within(s: seq<int>, bound: int)
  {
    forall i :: 0 <= i < |s| ==> -bound <= s[i] <= bound
  }

  lemma UpdateTerm(b: int, d: int, p: int, w: int)
    ensures b * (w + d * p) == b * w + d * (b * p)
  {
    assert b * (d * p) == d * (b * p);
  }

  lemma {:induction false} ValUpdate(s: seq<int>, b: nat, k: nat, v: int)
    requires k < |s|
    ensures Val(s[k := v], b) == Val(s, b) + (v - s[k]) * Pow(b, k)
  {
    var s' := s[k := v];
    if k == 0 {
      assert s'[1..] == s[1..];
    } else {
      assert s'[1..] == s[1..][k - 1 := v];
      ValUpdate(s[1..], b, k - 1, v);
      UpdateTerm(b, v - s[k], Pow(b, k - 1), Val(s[1..], b));
    }
  }

  lemma {:induction false} ValAppend(s: seq<int>, b: nat, v: int)
    ensures Val(s + [v], b) == Val(s, b) + v * Pow(b, |s|)
  {
    if s == [] {
      assert s + [v] == [v];
      assert [v][1..] == [];
    } else {
      assert (s + [v])[1..] == s[1..] + [v];
      ValAppend(s[1..], b, v);
      UpdateTerm(b, v, Pow(b, |s| - 1), Val(s[1..], b));
    }
  }

  lemma ConcatTerm(b: int, p: int, v: int, w: int)
    ensures b * (w + p * v) == b * w + b * p * v
  {
    assert b * (p * v) == b * p * v;
  }

  lemma {:induction false} ValConcat(s: seq<int>, t: seq<int>, b: nat)
    ensures Val(s + t, b) == Val(s, b) + Pow(b, |s|) * Val(t, b)
  {
    if s == [] {
      assert s + t == t;
    } else {
      assert (s + t)[1..] == s[1..] + t;
      ValConcat(s[1..], t, b);
      ConcatTerm(b, Pow(b, |s| - 1), Val(t, b), Val(s[1..], b));
    }
  }

  lemma ValPrefixStep(s: seq<int>, b: nat, k: nat)
    requires k < |s|
    ensures Val(s[..k + 1], b) == Val(s[..k], b) + s[k] * Pow(b, k)
  {
    assert s[..k + 1] == s[..k] + [s[k]];
    ValAppend(s[..k], b, s[k]);
  }

  lemma {:induction false} ValZeros(s: seq<int>, b: nat)
    requires forall i :: 0 <= i < |s| ==> s[i] == 0
    ensures Val(s, b) == 0
  {
    if s != [] {
      ValZeros(s[1..], b);
    }
  }

  lemma {:induction false} DigitsBound(s: seq<int>, b: nat)
    requires Digits(s, b)
    ensures 0 <= Val(s, b) < Pow(b, |s|)
  {
    if s != [] {
      DigitsBound(s[1..], b);
      var v, p := Val(s[1..], b), Pow(b, |s| - 1);
      MulMono(b, 0, v);
      MulMono(b, v, p - 1);
    }
  }

  // A digit vector is determined by its value.
  lemma {:induction false} DigitsInjective(s: seq<int>, t: seq<int>, b: nat)
    requires |s| == |t| && Digits(s, b) && Digits(t, b) && Val(s, b) == Val(t, b)
    ensures s == t
  {
    if s != [] {
      var vs, vt := Val(s[1..], b), Val(t[1..], b);
      var x := Val(s, b);
      assert x == vs * b + s[0];
      assert x == vt * b + t[0];
      DivModUnique(x, b, vs, s[0]);
      DivModUnique(x, b, vt, t[0]);
      DigitsInjective(s[1..], t[1..], b);
      assert s == [s[0]] + s[1..] && t == [t[0]] + t[1..];
    }
  }

  lemma WithinStep(b: nat, m: int, p: int, h: int, v: int)
    requires b >= 1 && m >= 0 && -m <= h <= m && -(m * (p - 1)) <= (b - 1) * v <= m * (p - 1)
    ensures -(m * (b * p - 1)) <= (b - 1) * (h + b * v) <= m * (b * p - 1)
  {
    var w := (b - 1) * v;
    assert (b - 1) * (b * v) == b * w;
    assert (b - 1) * (h + b * v) == (b - 1) * h + b * w;
    MulMono(b, w, m * (p - 1));
    MulMono(b, -(m * (p - 1)), w);
    MulMono(b - 1, h, m);
    MulMono(b - 1, -m, h);
    assert b * (m * (p - 1)) == m * (b * p) - m * b;
    assert (b - 1) * m == m * b - m;
    assert m * (b * p - 1) == m * (b * p) - m;
  }

  // Limbs of magnitude at most m: the value is at most m times 11...1.
  lemma {:induction false} WithinBound(s: seq<int>, b: nat, m: nat)
    requires Within(s, m) && b >= 1
    ensures -(m * (Pow(b, |s|) - 1)) <= (b - 1) * Val(s, b) <= m * (Pow(b, |s|) - 1)
  {
    if s != [] {
      WithinBound(s[1..], b, m);
      WithinStep(b, m, Pow(b, |s| - 1), s[0], Val(s[1..], b));
    }
  }

  function DigitOf(x: int, b: nat, i: nat): (d: int)
    requires b > 0
    ensures 0 <= d < b
  {
    PowPositive(b, i);
    x / Pow(b, i) % b
  }

  /** The n base-b digits of x, least significant first. */
  function ToDigits(x: int, b: nat, n: nat): (s: seq<int>)
    requires b > 0
    ensures |s| == n && Digits(s, b)
  {
    seq(n, i requires 0 <= i < n => DigitOf(x, b, i))
  }

  // The low n digits depend on the number modulo b^n only.
  lemma DigitOfMod(v: int, b: nat, n: nat, i: nat)
    requires b > 0 && i < n
    ensures Pow(b, n) > 0 && DigitOf(v % Pow(b, n), b, i) == DigitOf(v, b, i)
  {
    PowPositive(b, n);
    PowPositive(b, i);
    PowPositive(b, n - i - 1);
    PowAdd(b, i, n - i);
    ShiftCut(v, Pow(b, i), b, Pow(b, n - i - 1));
  }

  lemma ShiftCut(v: int, p: int, b: int, r: int)
    requires p > 0 && b > 0 && r > 0
    ensures p * (b * r) > 0 && v % (p * (b * r)) / p % b == v / p % b
  {
    MulMono(b, 1, r);
    MulMono(p, 1, b * r);
    var m := p * (b * r);
    var q, w := v / m, v % m;
    var x, y := w / p, w % p;
    ShiftTerms(v, p, b, r, q, x, y);
    DivModUnique(v, p, q * r * b + x, y);
    ModAddMultiple(x, q * r, b);
  }

  lemma ShiftTerms(v: int, p: int, b: int, r: int, q: int, x: int, y: int)
    requires v == q * (p * (b * r)) + (x * p + y)
    ensures v == (q * r * b + x) * p + y
  {
    assert q * (p * (b * r)) == (q * r * b) * p;
  }

  // x mod p*b, split at p.
  lemma ModSplit(x: int, p: int, b: int)
    requires p > 0 && b > 0
    ensures p * b > 0
    ensures x % (p * b) == x % p + (x / p % b) * p
  {
    MulMono(p, 1, b);
    var q, r := x / p, x % p;
    var q2, d := q / b, q % b;
    MulMono(p, 0, d);
    MulMono(p, d, b - 1);
    assert p * (b - 1) == p * b - p;
    assert x == (q2 * b + d) * p + r;
    assert (q2 * b + d) * p == q2 * (p * b) + d * p;
    DivModUnique(x, p * b, q2, d * p + r);
  }

  lemma {:induction false} ToDigitsMod(x: int, b: nat, n: nat)
    requires b > 0
    ensures Pow(b, n) > 0
    ensures Val(ToDigits(x, b, n), b) == x % Pow(b, n)
    decreases n
  {
    hide DigitOf;
    PowPositive(b, n);
    if n > 0 {
      PowPositive(b, n - 1);
      ToDigitsMod(x, b, n - 1);
      ToDigitsStep(x, b, n);
      ValAppend(ToDigits(x, b, n - 1), b, DigitOf(x, b, n - 1));
      ModDigit(x, b, n);
    }
  }

  lemma ToDigitsStep(x: int, b: nat, n: nat)
    requires b > 0 && n > 0
    ensures |ToDigits(x, b, n - 1)| == n - 1
    ensures ToDigits(x, b, n) == ToDigits(x, b, n - 1) + [DigitOf(x, b, n - 1)]
  {
  }

  lemma ModDigit(x: int, b: nat, n: nat)
    requires b > 0 && n > 0
    ensures Pow(b, n) > 0 && Pow(b, n - 1) > 0
    ensures x % Pow(b, n) == x % Pow(b, n - 1) + DigitOf(x, b, n - 1) * Pow(b, n - 1)
  {
    PowPositive(b, n);
    PowPositive(b, n - 1);
    var p := Pow(b, n - 1);
    ModSplit(x, p, b);
    assert p * b == Pow(b, n);
  }

  lemma ToDigitsValue(x: int, b: nat, n: nat)
    requires 0 <= x < Pow(b, n) && b > 0
    ensures Val(ToDigits(x, b, n), b) == x
  {
    ToDigitsMod(x, b, n);
    ModSmall(x, Pow(b, n));
  }

  lemma SumStep(x: int, y: int, v: int, w: int, base: int, sign: int)
    ensures (x + sign * y) + base * (v + sign * w) == (x + base * v) + sign * (y + base * w)
  {
    assert base * (sign * w) == sign * (base * w);
  }

  lemma {:induction false} ValSum(a: seq<int>, b: seq<int>, c: seq<int>, base: nat, sign: int)
    requires |a| == |b| == |c|
    requires forall i :: 0 <= i < |a| ==> c[i] == a[i] + sign * b[i]
    ensures Val(c, base) == Val(a, base) + sign * Val(b, base)
  {
    if a != [] {
      ValSum(a[1..], b[1..], c[1..], base, sign);
      SumStep(a[0], b[0], Val(a[1..], base), Val(b[1..], base), base, sign);
    }
  }

  // ---- schoolbook multiplication ----

  lemma TermStep(x: int, p: int, v: int, y: int, r: int)
    ensures x * p * v + (x * y) * (p * r) == x * p * (v + y * r)
  {
    assert (x * y) * (p * r) == (x * p) * (y * r);
  }

  // Adding a[i] * b[j] at limb i + j extends the partial product by one term.
  lemma AccumulateValue(t: seq<int>, a: seq<int>, b: seq<int>, base: nat, i: nat, j: nat, c: int)
    requires i < |a| && j < |b| && i + j < |t|
    requires Val(t, base) == c + Val(a[..i], base) * Val(b, base) + a[i] * Pow(base, i) * Val(b[..j], base)
    ensures Val(t[i + j := t[i + j] + a[i] * b[j]], base)
         == c + Val(a[..i], base) * Val(b, base) + a[i] * Pow(base, i) * Val(b[..j + 1], base)
  {
    ValUpdate(t, base, i + j, t[i + j] + a[i] * b[j]);
    PowAdd(base, i, j);
    ValPrefixStep(b, base, j);
    TermStep(a[i], Pow(base, i), Val(b[..j], base), b[j], Pow(base, j));
  }

  lemma RowDone(a: seq<int>, b: seq<int>, base: nat, i: nat)
    requires i < |a|
    ensures Val(a[..i], base) * Val(b, base) + a[i] * Pow(base, i) * Val(b[..|b|], base)
         == Val(a[..i + 1], base) * Val(b, base)
    ensures Val(b[..0], base) == 0
  {
    assert b[..|b|] == b;
    ValPrefixStep(a, base, i);
    var x, y, v := Val(a[..i], base), a[i] * Pow(base, i), Val(b, base);
    assert (x + y) * v == x * v + y * v;
  }
}
