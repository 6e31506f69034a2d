/** Reduction modulo the order of the Ed25519 base point (section 5.1.6 of RFC 8032):
    modL, reduce and the scalar computed at the end of crypto_sign, tweetnacl.c. */
module ScalarL {
  import opened Arith
  import opened Limbs
  import opened Bits
  import opened Field25519

  // 2^252 + 27742317777372353535851937790883648493
  const ORDER: int := 0x1000_0000_0000_0000_0000_0000_0000_0000_14de_f9de_a2f7_9cd6_5812_631a_5cf5_d3ed
  const ORDER_TAIL: int := 0x14de_f9de_a2f7_9cd6_5812_631a_5cf5_d3ed

  const L: seq<int> := [
    0xed, 0xd3, 0xf5, 0x5c, 0x1a, 0x63, 0x12, 0x58, 0xd6, 0x9c, 0xf7, 0xa2, 0xde, 0xf9, 0xde, 0x14,
    0, 0, 0, 0, 0, 0, 0, 0, 0, 0, 0, 0, 0, 0, 0, 0x10
  ]

  ghost function W(s: seq<int>): int { Val(s, 256) }

  lemma Val4(a: int, b: int, c: int, d: int)
    ensures W([a, b, c, d]) == a + 0x100 * b + 0x1_0000 * c + 0x100_0000 * d
  {
    assert [a, b, c, d][1..] == [b, c, d] && [b, c, d][1..] == [c, d] && [c, d][1..] == [d] && [d][1..] == [];
    assert Val([d], 256) == d;
    assert Val([c, d], 256) == c + 256 * d;
    assert Val([b, c, d], 256) == b + 256 * Val([c, d], 256);
  }

  // The low part of the order, four digits at a time.
  lemma OrderLow()
    ensures W(L[..16]) == ORDER_TAIL
  {
    var p, q := [0xed, 0xd3, 0xf5, 0x5c], [0x1a, 0x63, 0x12, 0x58];
    var r, s := [0xd6, 0x9c, 0xf7, 0xa2], [0xde, 0xf9, 0xde, 0x14];
    assert L[..16] == p + (q + (r + s));
    Val4(0xed, 0xd3, 0xf5, 0x5c);
    Val4(0x1a, 0x63, 0x12, 0x58);
    Val4(0xd6, 0x9c, 0xf7, 0xa2);
    Val4(0xde, 0xf9, 0xde, 0x14);
    ValConcat(r, s, 256);
    ValConcat(q, r + s, 256);
    ValConcat(p, q + (r + s), 256);
    assert Pow(256, 4) == 0x1_0000_0000;
  }

  lemma PowersOf256()
    ensures Pow(256, 31) * 16 == ORDER - ORDER_TAIL
    ensures Pow(256, 32) == R256
  {
    assert Pow(256, 4) == 0x1_0000_0000;
    PowAdd(256, 4, 4);
    PowAdd(256, 8, 8);
    PowAdd(256, 16, 16);
    assert Pow(256, 32) == 256 * Pow(256, 31);
  }

  // Digits 16 to 30 of the order are zero.
  lemma {:induction false} OrderPrefix(n: nat)
    requires 16 <= n <= 31
    ensures W(L[..n]) == W(L[..16])
  {
    if n > 16 {
      OrderPrefix(n - 1);
      ValPrefixStep(L, 256, n - 1);
    }
  }

  lemma OrderValue()
    ensures W(L[..20]) == ORDER_TAIL
    ensures W(L[..32]) == ORDER
  {
    OrderLow();
    OrderPrefix(20);
    OrderPrefix(31);
    PowersOf256();
    ValPrefixStep(L, 256, 31);
  }

  // ---- eliminating limb i: subtract 16 * x[i] * 256^(i-32) times the order ----

  lemma EliminateStep(s: seq<int>, t: seq<int>, j: nat, m: nat, e: int, c: int, c': int)
    requires |s| == |t| == 64 && j < 64 && m < 32 && m <= j
    requires t == s[j := s[j] + c - e * L[m] - 256 * c']
    ensures W(t) + c' * Pow(256, j + 1) + e * W(L[..m + 1]) * Pow(256, j - m)
         == W(s) + c * Pow(256, j) + e * W(L[..m]) * Pow(256, j - m)
  {
    ValUpdate(s, 256, j, t[j]);
    ValPrefixStep(L, 256, m);
    PowAdd(256, m, j - m);
    EliminateTerms(c, c', e, L[m], W(L[..m]), Pow(256, m), Pow(256, j - m));
  }

  lemma EliminateTerms(c: int, c': int, e: int, d: int, w: int, p: int, r: int)
    ensures (c - e * d - 256 * c') * (p * r) + c' * (256 * (p * r)) + e * (w + d * p) * r
         == c * (p * r) + e * w * r
  {
    var z := p * r;
    assert (c - e * d - 256 * c') * z == c * z - (e * d) * z - 256 * c' * z;
    assert e * (w + d * p) * r == e * w * r + (e * d) * z by {
      assert e * (w + d * p) == e * w + (e * d) * p;
      assert (e * w + (e * d) * p) * r == e * w * r + (e * d) * p * r;
      assert (e * d) * p * r == (e * d) * z;
    }
  }

  // How large the carry out of digit m can be; small if the top four limbs were already centred.
  function CarryBound(m: nat, centred: bool): int
  {
    if m == 0 then 0 else if m <= 16 then 0x800_0000 else if m == 17 then 0x10_0000
    else if m == 18 then 0x4000 else if m == 19 then (if centred then 66 else 0x4000)
    else (if centred then 1 else 0x4000)
  }

  lemma CarryStays(y: int, c: int, xi: int, m: nat, centred: bool)
    requires m < 20 && -CarryBound(m, centred) <= c <= CarryBound(m, centred)
    requires -0x40_0000 <= xi <= 0x40_0000
    requires -0x20_0000 <= y <= 0x20_0000 || (-128 <= y <= 127)
    requires m >= 16 && centred ==> -128 <= y <= 127
    ensures -0x800_0000_0000 <= y + c - 16 * xi * L[m] <= 0x800_0000_0000
    ensures -CarryBound(m + 1, centred) <= (y + c - 16 * xi * L[m] + 128) / 256 <= CarryBound(m + 1, centred)
  {
    var d := L[m];
    if m >= 16 {
      assert d == 0;
    } else {
      assert 0 <= d < 256;
      MulMono(d, xi, 0x40_0000);
      MulMono(d, -0x40_0000, xi);
      assert xi * d == d * xi;
    }
  }

  // What one elimination does to the limb vector.
  ghost predicate Eliminated(s: seq<int>, t: seq<int>, i: nat, centred: bool)
    requires |s| == |t| == 64 && 32 <= i < 64
  {
    && (forall k :: 0 <= k < 64 && (k < i - 32 || k > i - 12) && k != i ==> t[k] == s[k])
    && Centred(t, i - 32, i - 12)
    && -CarryBound(20, centred) <= t[i - 12] - s[i - 12] <= CarryBound(20, centred)
    && t[i] == 0
    && W(t) == W(s) - 16 * s[i] * Pow(256, i - 32) * ORDER
  }

  lemma EliminatedValue(v: int, u: int, w: int, xi: int, i: nat)
    requires 32 <= i
    requires u + 16 * xi * ORDER_TAIL * Pow(256, i - 32) == v
    requires w == u - xi * Pow(256, i)
    ensures w == v - 16 * xi * Pow(256, i - 32) * ORDER
  {
    PowersOf256();
    PowAdd(256, 32, i - 32);
    var p := Pow(256, i - 32);
    var z := xi * p;
    assert xi * (R256 * p) == R256 * z;
    assert 16 * xi * ORDER_TAIL * p == 16 * ORDER_TAIL * z;
    assert 16 * xi * p * ORDER == 16 * ORDER * z;
  }

  // Digit m of the inner loop, at limb j.
  method EliminateDigit(x: array<i64>, i: int, j: nat, carry: i64, ghost centred: bool) returns (carry': i64)
    requires x.Length == 64 && 32 <= i < 64 && i - 32 <= j < i - 12
    requires -0x40_0000 <= x[i] <= 0x40_0000
    requires -0x20_0000 <= x[j] <= 0x20_0000
    requires centred && j - (i - 32) >= 16 ==> -128 <= x[j] <= 127
    requires -CarryBound(j - (i - 32), centred) <= carry <= CarryBound(j - (i - 32), centred)
    modifies x
    ensures forall k :: 0 <= k < 64 && k != j ==> x[k] == old(x[k])
    ensures -128 <= x[j] <= 127
    ensures -CarryBound(j + 1 - (i - 32), centred) <= carry' <= CarryBound(j + 1 - (i - 32), centred)
    ensures W(x[..]) + carry' * Pow(256, j + 1) + 16 * x[i] * W(L[..j + 1 - (i - 32)]) * Pow(256, i - 32)
         == W(old(x[..])) + carry * Pow(256, j) + 16 * x[i] * W(L[..j - (i - 32)]) * Pow(256, i - 32)
  {
    ghost var was: seq<int>, m := x[..], j - (i - 32);
    CarryStays(x[j], carry, x[i], m, centred);
    x[j] := x[j] + (carry - 16 * x[i] * L[j - (i - 32)]);
    carry' := (x[j] + 128) / 256;
    x[j] := x[j] - carry' * 256;
    assert x[..] == was[j := was[j] + carry - 16 * was[i] * L[m] - 256 * carry'];
    EliminateStep(was, x[..], j, m, 16 * was[i], carry, carry');
  }

  ghost predicate Centred(x: seq<int>, lo: int, hi: int)
    requires 0 <= lo <= hi <= |x|
  {
    forall k :: lo <= k < hi ==> -128 <= x[k] <= 127
  }

  method EliminateDigits(x: array<i64>, i: int, ghost centred: bool) returns (carry: i64)
    requires x.Length == 64 && 32 <= i < 64
    requires -0x40_0000 <= x[i] <= 0x40_0000
    requires forall k :: i - 32 <= k < i - 12 ==> -0x20_0000 <= x[k] <= 0x20_0000
    requires centred ==> Centred(x[..], i - 16, i - 12)
    modifies x
    ensures forall k :: 0 <= k < 64 && (k < i - 32 || k >= i - 12) ==> x[k] == old(x[k])
    ensures Centred(x[..], i - 32, i - 12)
    ensures -CarryBound(20, centred) <= carry <= CarryBound(20, centred)
    ensures W(x[..]) + carry * Pow(256, i - 12) + 16 * x[i] * ORDER_TAIL * Pow(256, i - 32) == W(old(x[..]))
  {
    carry := 0;
    var j := i - 32;
    OrderValue();
    assert W(L[..0]) == 0;
    while j < i - 12
      invariant i - 32 <= j <= i - 12
      invariant forall k :: 0 <= k < 64 && (k < i - 32 || k >= j) ==> x[k] == old(x[k])
      invariant Centred(x[..], i - 32, j)
      invariant -CarryBound(j - (i - 32), centred) <= carry <= CarryBound(j - (i - 32), centred)
      invariant W(x[..]) + carry * Pow(256, j) + 16 * x[i] * W(L[..j - (i - 32)]) * Pow(256, i - 32) == W(old(x[..]))
    {
      carry := EliminateDigit(x, i, j, carry, centred);
      j := j + 1;
    }
  }

  lemma AddAt(s: seq<int>, k: nat, c: int)
    requires k < |s|
    ensures W(s[k := s[k] + c]) == W(s) + c * Pow(256, k)
    ensures c == -s[k] ==> W(s[k := 0]) == W(s) - s[k] * Pow(256, k)
  {
    ValUpdate(s, 256, k, s[k] + c);
    NegateProduct(s[k], Pow(256, k));
  }

  lemma NegateProduct(x: int, p: int)
    ensures -x * p == -(x * p)
  {
  }

  method Eliminate(x: array<i64>, i: int, ghost centred: bool)
    requires x.Length == 64 && 32 <= i < 64
    requires Within(x[..], 0x40_0000)
    requires forall k :: i - 32 <= k < i - 12 ==> -0x20_0000 <= x[k] <= 0x20_0000
    requires centred ==> Centred(x[..], i - 16, i - 12)
    modifies x
    ensures Eliminated(old(x[..]), x[..], i, centred)
  {
    hide Val, Pow;
    ghost var s: seq<int> := x[..];
    var carry := EliminateDigits(x, i, centred);
    ghost var t: seq<int> := x[..];
    x[i - 12] := x[i - 12] + carry;
    x[i] := 0;
    assert x[..] == t[i - 12 := t[i - 12] + carry][i := 0];
    AddAt(t, i - 12, carry);
    AddAt(t[i - 12 := t[i - 12] + carry], i, -t[i]);
    EliminatedValue(W(s), W(t) + carry * Pow(256, i - 12), W(x[..]), s[i], i);
  }

  // ---- the downward sweep ----

  // The limbs before limb i is eliminated, counting down from 63.
  ghost predicate Phase(x: seq<int>, i: int)
  {
    && |x| == 64 && 31 <= i <= 63
    && (forall k :: 0 <= k < i - 31 ==> -0x20_0000 <= x[k] <= 0x20_0000)
    && (forall k :: 51 <= k <= i ==> -0x20_4000 <= x[k] <= 0x20_4000)
    && (forall k :: i < k < 64 ==> x[k] == 0)
    && if i == 63 then Within(x, 0x20_0000)
       else Centred(x, i - 31, i - 11) && forall k :: i - 11 <= k <= i && k <= 50 ==> -129 <= x[k] <= 129
  }

  lemma PhaseStep(s: seq<int>, t: seq<int>, i: int)
    requires Phase(s, i) && i >= 32
    requires |t| == 64 && Eliminated(s, t, i, i < 63)
    ensures Phase(t, i - 1) && W(t) % ORDER == W(s) % ORDER
  {
    ModAddMultiple(W(s), -(16 * s[i] * Pow(256, i - 32)), ORDER);
    assert -(16 * s[i] * Pow(256, i - 32)) * ORDER == -(16 * s[i] * Pow(256, i - 32) * ORDER);
  }

  method Sweep(x: array<i64>)
    requires x.Length == 64 && Within(x[..], 0x20_0000)
    modifies x
    ensures Phase(x[..], 31) && W(x[..]) % ORDER == W(old(x[..])) % ORDER
  {
    var i := 63;
    while i >= 32
      invariant 31 <= i <= 63
      invariant Phase(x[..], i)
      invariant W(x[..]) % ORDER == W(old(x[..])) % ORDER
    {
      ghost var s: seq<int> := x[..];
      Eliminate(x, i, i < 63);
      PhaseStep(s, x[..], i);
      i := i - 1;
    }
  }

  // ---- the final quotient, correction and carry ----

  lemma QuotientStep(s: seq<int>, t: seq<int>, j: nat, q: int, c: int, c': int)
    requires |s| == |t| == 64 && j < 32
    requires t == s[j := s[j] + c - q * L[j] - 256 * c']
    ensures W(t) + c' * Pow(256, j + 1) + q * W(L[..j + 1]) == W(s) + c * Pow(256, j) + q * W(L[..j])
  {
    EliminateStep(s, t, j, j, q, c, c');
    assert Pow(256, 0) == 1;
  }

  lemma EmptyPrefix(q: int)
    ensures q * W(L[..0]) == 0 && 0 * Pow(256, 0) == 0
  {
    assert L[..0] == [];
  }

  method SubtractQuotient(x: array<i64>) returns (carry: i64)
    requires x.Length == 64 && Phase(x[..], 31)
    modifies x
    ensures forall k :: 0 <= k < 32 ==> 0 <= x[k] < 256
    ensures forall k :: 32 <= k < 64 ==> x[k] == 0
    ensures W(x[..]) + carry * R256 == W(old(x[..])) - old(x[31]) / 16 * ORDER
  {
    hide Val, Pow;
    ghost var q := x[31] / 16;
    carry := 0;
    OrderValue();
    EmptyPrefix(q);
    var j := 0;
    while j < 32
      invariant 0 <= j <= 32
      invariant forall k :: 0 <= k < j ==> 0 <= x[k] < 256
      invariant forall k :: j <= k < 64 ==> x[k] == old(x[k])
      invariant -20 <= carry <= 20
      invariant W(x[..]) + carry * Pow(256, j) + q * W(L[..j]) == W(old(x[..]))
    {
      ghost var was: seq<int>, c := x[..], carry;
      QuotientRange(x[j], carry, q, j);
      x[j] := x[j] + (carry - (x[31] / 16) * L[j]);
      carry := x[j] / 256;
      x[j] := x[j] % 256;
      assert x[..] == was[j := was[j] + c - q * L[j] - 256 * carry];
      QuotientStep(was, x[..], j, q, c, carry);
      j := j + 1;
    }
    PowersOf256();
  }

  lemma QuotientRange(y: int, c: int, q: int, j: nat)
    requires j < 32 && -129 <= y <= 129 && -20 <= c <= 20 && -9 <= q <= 9
    ensures -5120 <= y + c - q * L[j] < 5120
  {
    assert 0 <= L[j] < 256;
    MulMono(L[j], q, 9);
    MulMono(L[j], -9, q);
    assert q * L[j] == L[j] * q;
  }

  // After the sweep the quotient guess is off by at most one: the difference lies in (-order, order).
  lemma QuotientClose(x: seq<int>)
    requires Phase(x, 31)
    ensures -ORDER < W(x) - x[31] / 16 * ORDER < ORDER
  {
    hide Val, Pow;
    ValPrefixStep(x, 256, 31);
    assert x == x[..32] + x[32..];
    ValConcat(x[..32], x[32..], 256);
    ValZeros(x[32..], 256);
    assert Within(x[..31], 129);
    WithinBound(x[..31], 256, 129);
    PowersOf256();
    QuotientGap(W(x[..31]), x[31], Pow(256, 31));
  }

  lemma QuotientGap(low: int, top: int, p: int)
    requires -(129 * (p - 1)) <= 255 * low <= 129 * (p - 1) && -129 <= top <= 129 && p * 16 == ORDER - ORDER_TAIL
    ensures -ORDER < low + top * p - top / 16 * ORDER < ORDER
  {
    var q, r := top / 16, top % 16;
    assert top * p == q * (16 * p) + r * p;
    assert q * ORDER == q * (16 * p) + q * ORDER_TAIL;
    MulMono(p, 0, r);
    MulMono(p, r, 15);
    MulMono(ORDER_TAIL, -9, q);
    MulMono(ORDER_TAIL, q, 8);
  }

  // Adding the order back when the difference was negative, modulo 2^256, gives the residue.
  lemma Corrected(v: int, q: int, d: int, carry: int)
    requires 0 <= d < R256 && d + carry * R256 == v - q * ORDER
    requires -ORDER < v - q * ORDER < ORDER
    ensures -1 <= carry <= 0 && (d - carry * ORDER) % R256 == v % ORDER
  {
    var w := v - q * ORDER;
    if w < 0 {
      assert carry == -1;
      DivModUnique(v, ORDER, q - 1, w + ORDER);
      DivModUnique(d + ORDER, R256, 1, w + ORDER);
    } else {
      assert carry == 0;
      DivModUnique(v, ORDER, q, w);
      DivModUnique(d, R256, 0, w);
    }
  }

  method WriteScalar(r: array<byte>, ro: nat, x: array<i64>)
    requires x.Length == 64 && ro + 32 <= r.Length && r as object != x as object
    requires forall k :: 0 <= k < 32 ==> 0 <= x[k] < 1024
    requires forall k :: 32 <= k < 64 ==> x[k] == 0
    modifies r, x
    ensures Le(r[ro..ro + 32]) == W(old(x[..])) % R256
    ensures forall k :: 0 <= k < r.Length && (k < ro || k >= ro + 32) ==> r[k] == old(r[k])
  {
    ghost var y: seq<int> := x[..];
    var i := 0;
    while i < 32
      invariant 0 <= i <= 32
      invariant |y| == 64 && W(y) == W(old(x[..]))
      invariant forall k :: 0 <= k < i ==> 0 <= y[k] < 256 && r[ro + k] as int == y[k]
      invariant forall k :: i <= k < 64 ==> y[k] == x[k]
      invariant forall k :: i <= k < 32 ==> 0 <= x[k] < 2048
      invariant forall k :: 32 < k < 64 ==> x[k] == 0
      invariant 0 <= x[32] < 2048
      invariant forall k :: i < k < 32 ==> x[k] < 1024
      invariant i < 32 ==> x[32] == 0
      invariant forall k :: 0 <= k < r.Length && (k < ro || k >= ro + 32) ==> r[k] == old(r[k])
    {
      ByteOfInt(x[i] % 256);
      CarryDigit(y, i);
      y := y[i + 1 := y[i + 1] + y[i] / 256][i := y[i] % 256];
      x[i + 1] := x[i + 1] + x[i] / 256;
      r[ro + i] := (x[i] % 256) as byte;
      i := i + 1;
    }
    DropTop(y);
    assert Ints(r[ro..ro + 32]) == y[..32];
  }

  lemma CarryDigit(y: seq<int>, i: nat)
    requires |y| == 64 && i < 32
    ensures W(y[i + 1 := y[i + 1] + y[i] / 256][i := y[i] % 256]) == W(y)
  {
    var y1 := y[i + 1 := y[i + 1] + y[i] / 256];
    ValUpdate(y, 256, i + 1, y[i + 1] + y[i] / 256);
    ValUpdate(y1, 256, i, y[i] % 256);
    CarryTerms(y[i], y[i] / 256, Pow(256, i));
  }

  lemma CarryTerms(y: int, c: int, p: int)
    ensures c * (256 * p) + (y - 256 * c - y) * p == 0
  {
  }

  // The carry out of limb 31 is dropped.
  lemma DropTop(y: seq<int>)
    requires |y| == 64 && Digits(y[..32], 256)
    requires forall k :: 32 < k < 64 ==> y[k] == 0
    ensures W(y[..32]) == W(y) % R256
  {
    assert y == y[..33] + y[33..];
    ValConcat(y[..33], y[33..], 256);
    ValZeros(y[33..], 256);
    ValPrefixStep(y, 256, 32);
    DigitsBound(y[..32], 256);
    PowersOf256();
    DivModUnique(W(y), R256, y[32], W(y[..32]));
  }

  lemma OrderByte(j: nat)
    requires j < 32
    ensures |L| == 32 && 0 <= L[j] < 256
  {
  }

  lemma MinusMultiple(x: int, carry: int, l: int)
    requires -1 <= carry <= 0 && 0 <= l < 256 && 0 <= x < 256
    ensures 0 <= x - carry * l < 512
  {
  }

  method AddBackOrder(x: array<i64>, carry: i64)
    requires x.Length == 64 && -1 <= carry <= 0
    requires forall k :: 0 <= k < 32 ==> 0 <= x[k] < 256
    requires forall k :: 32 <= k < 64 ==> x[k] == 0
    modifies x
    ensures forall k :: 0 <= k < 32 ==> 0 <= x[k] < 1024
    ensures forall k :: 32 <= k < 64 ==> x[k] == 0
    ensures W(x[..]) == W(old(x[..])) - carry * ORDER
  {
    var j := 0;
    while j < 32
      invariant 0 <= j <= 32
      invariant forall k :: 0 <= k < j ==> x[k] == old(x[k]) - carry * L[k]
      invariant forall k :: j <= k < 64 ==> x[k] == old(x[k])
    {
      OrderByte(j);
      MinusMultiple(x[j], carry, L[j]);
      x[j] := x[j] - carry * L[j];
      j := j + 1;
    }
    SubtractOrder(old(x[..]), x[..], carry);
  }

  lemma SubtractOrder(s: seq<int>, t: seq<int>, carry: int)
    requires |s| == |t| == 64
    requires forall k :: 0 <= k < 32 ==> t[k] == s[k] + -carry * L[k]
    requires forall k :: 32 <= k < 64 ==> t[k] == s[k] == 0
    ensures W(t) == W(s) - carry * ORDER
  {
    assert s == s[..32] + s[32..] && t == t[..32] + t[32..];
    ValConcat(s[..32], s[32..], 256);
    ValConcat(t[..32], t[32..], 256);
    ValZeros(s[32..], 256);
    ValZeros(t[32..], 256);
    ValSum(s[..32], L[..32], t[..32], 256, -carry);
    OrderValue();
  }

  /** r[ro..ro+32] = the residue of x modulo the order, little-endian. */
  method ModL(r: array<byte>, ro: nat, x: array<i64>)
    requires x.Length == 64 && Within(x[..], 0x20_0000)
    requires ro + 32 <= r.Length && r as object != x as object
    modifies r, x
    ensures Le(r[ro..ro + 32]) == W(old(x[..])) % ORDER
    ensures forall k :: 0 <= k < r.Length && (k < ro || k >= ro + 32) ==> r[k] == old(r[k])
  {
    Sweep(x);
    ghost var v := W(x[..]);
    ghost var q := x[31] / 16;
    QuotientClose(x[..]);
    var carry := SubtractQuotient(x);
    DigitsTotal(x[..]);
    Corrected(v, q, W(x[..]), carry);
    AddBackOrder(x, carry);
    WriteScalar(r, ro, x);
  }

  lemma DigitsTotal(x: seq<int>)
    requires |x| == 64 && Digits(x[..32], 256) && forall k :: 32 <= k < 64 ==> x[k] == 0
    ensures 0 <= W(x) < R256
  {
    assert x == x[..32] + x[32..];
    ValConcat(x[..32], x[32..], 256);
    ValZeros(x[32..], 256);
    DigitsBound(x[..32], 256);
    PowersOf256();
  }

  /** The first 32 bytes become the residue of all 64, the rest zero. */
  method Reduce(r: array<byte>)
    requires r.Length == 64
    modifies r
    ensures Le(r[..32]) == Le(old(r[..])) % ORDER
    ensures forall k :: 32 <= k < 64 ==> r[k] == 0
  {
    var x := new i64[64](i requires 0 <= i < 64 reads r => r[i] as int);
    assert x[..] == Ints(r[..]);
    var i := 0;
    while i < 64
      invariant 0 <= i <= 64
      invariant forall k :: 0 <= k < i ==> r[k] == 0
      invariant x[..] == Ints(old(r[..]))
    {
      r[i] := 0;
      i := i + 1;
    }
    ModL(r, 0, x);
  }

  // ---- the scalar of a signature ----

  method AccumulateRow(x: array<i64>, h: seq<byte>, d: seq<byte>, i: nat, ghost c: int)
    requires x.Length == 64 && |h| == |d| == 32 && i < 32
    requires W(x[..]) == c + W(Ints(h)[..i]) * Le(d)
    requires forall k :: 0 <= k < 64 ==> 0 <= x[k] <= 255 + 65025 * i
    modifies x
    ensures W(x[..]) == c + W(Ints(h)[..i + 1]) * Le(d)
    ensures forall k :: 0 <= k < 64 ==> 0 <= x[k] <= 255 + 65025 * (i + 1)
  {
    ghost var a, b := Ints(h), Ints(d);
    RowDone(a, b, 256, i);
    var j := 0;
    while j < 32
      invariant 0 <= j <= 32
      invariant W(x[..]) == c + W(a[..i]) * W(b) + a[i] * Pow(256, i) * W(b[..j])
      invariant forall k :: 0 <= k < 64 ==> 0 <= x[k] <= 255 + 65025 * (i + 1)
      invariant forall k :: i + j <= k < 64 ==> x[k] <= 255 + 65025 * i
    {
      ghost var s: seq<int> := x[..];
      AccumulateValue(s, a, b, 256, i, j, c);
      ByteProduct(h[i], d[j]);
      x[i + j] := x[i + j] + h[i] as int * d[j] as int;
      assert x[..] == s[i + j := s[i + j] + a[i] * b[j]];
      j := j + 1;
    }
  }

  lemma ByteProduct(x: byte, y: byte)
    ensures 0 <= x as int * y as int <= 65025
  {
    MulMono(x as int, 0, y as int);
    MulMono(x as int, y as int, 255);
  }

  /** s = (r + h * d) modulo the order, as crypto_sign stores it. */
  method SignScalar(sm: array<byte>, off: nat, r: seq<byte>, h: seq<byte>, d: seq<byte>)
    requires |r| == |h| == |d| == 32 && off + 32 <= sm.Length
    modifies sm
    ensures Le(sm[off..off + 32]) == (Le(r) + Le(h) * Le(d)) % ORDER
    ensures forall k :: 0 <= k < sm.Length && (k < off || k >= off + 32) ==> sm[k] == old(sm[k])
  {
    var x := new i64[64](i => if 0 <= i < 32 then r[i] as int else 0);
    assert x[..] == Ints(r) + x[32..];
    ValConcat(Ints(r), x[32..], 256);
    ValZeros(x[32..], 256);
    var i := 0;
    while i < 32
      invariant 0 <= i <= 32
      invariant W(x[..]) == Le(r) + W(Ints(h)[..i]) * Le(d)
      invariant forall k :: 0 <= k < 64 ==> 0 <= x[k] <= 255 + 65025 * i
      invariant sm[..] == old(sm[..])
    {
      AccumulateRow(x, h, d, i, Le(r));
      i := i + 1;
    }
    assert Ints(h)[..32] == Ints(h);
    ModL(sm, off, x);
  }
}
