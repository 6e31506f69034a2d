/** C's bitwise operators on two's-complement integers of any width, and byte strings as numbers. */
module Bits {
  import opened Arith
  import opened Limbs

  type byte = bv8

  // How far x is from a sign extension (0 or -1).
  function Mag(x: int): nat { if x >= 0 then x else -x - 1 }

  function Not(x: int): int { -x - 1 }

  function Xor(x: int, y: int): int
    decreases Mag(x) + Mag(y)
  {
    var low := if x % 2 == y % 2 then 0 else 1;
    if Mag(x) == 0 && Mag(y) == 0 then -low else 2 * Xor(x / 2, y / 2) + low
  }

  function And(x: int, y: int): int
    decreases Mag(x) + Mag(y)
  {
    var low := if x % 2 == 1 && y % 2 == 1 then 1 else 0;
    if Mag(x) == 0 && Mag(y) == 0 then -low else 2 * And(x / 2, y / 2) + low
  }

  function Or(x: int, y: int): int
    decreases Mag(x) + Mag(y)
  {
    var low := if x % 2 == 0 && y % 2 == 0 then 0 else 1;
    if Mag(x) == 0 && Mag(y) == 0 then -low else 2 * Or(x / 2, y / 2) + low
  }

  lemma {:induction false} XorZero(x: int)
    ensures Xor(x, 0) == x
    decreases Mag(x)
  {
    if Mag(x) != 0 {
      XorZero(x / 2);
    }
  }

  lemma {:induction false} XorCancel(x: int, y: int)
    ensures Xor(x, Xor(x, y)) == y
    ensures Xor(y, Xor(x, y)) == x
    decreases Mag(x) + Mag(y)
  {
    if Mag(x) == 0 && Mag(y) == 0 {
    } else {
      XorCancel(x / 2, y / 2);
      var z := Xor(x / 2, y / 2);
      var low := if x % 2 == y % 2 then 0 else 1;
      assert Xor(x, y) == 2 * z + low;
      assert (2 * z + low) / 2 == z && (2 * z + low) % 2 == low;
      XorUnfold(x, 2 * z + low);
      XorUnfold(y, 2 * z + low);
    }
  }

  // The defining equation holds at the sign-extension fixed point as well.
  lemma XorUnfold(x: int, y: int)
    ensures Xor(x, y) == 2 * Xor(x / 2, y / 2) + (if x % 2 == y % 2 then 0 else 1)
  {
  }

  lemma AndUnfold(x: int, y: int)
    ensures And(x, y) == 2 * And(x / 2, y / 2) + (if x % 2 == 1 && y % 2 == 1 then 1 else 0)
  {
  }

  lemma {:induction false} XorRange(x: int, y: int, n: nat)
    requires -Pow(2, n) <= x < Pow(2, n) && -Pow(2, n) <= y < Pow(2, n)
    ensures -Pow(2, n) <= Xor(x, y) < Pow(2, n)
    decreases n
  {
    if n > 0 {
      XorUnfold(x, y);
      XorRange(x / 2, y / 2, n - 1);
    }
  }

  lemma {:induction false} XorNonNegative(x: int, y: int)
    requires x >= 0 && y >= 0
    ensures Xor(x, y) >= 0
    decreases x + y
  {
    if x + y > 0 {
      XorNonNegative(x / 2, y / 2);
    }
  }

  lemma OrUnfold(x: int, y: int)
    ensures Or(x, y) == 2 * Or(x / 2, y / 2) + (if x % 2 == 0 && y % 2 == 0 then 0 else 1)
  {
  }

  lemma {:induction false} OrZero(x: int)
    ensures Or(x, 0) == x
    decreases Mag(x)
  {
    if Mag(x) != 0 {
      OrZero(x / 2);
    }
  }

  // Disjoint bits: the disjunction is the sum.
  lemma {:induction false} OrDisjoint(x: int, c: nat, y: int)
    requires 0 <= y < Pow(2, c)
    ensures Or(x * Pow(2, c), y) == x * Pow(2, c) + y
    decreases c
  {
    if c == 0 {
      OrZero(x);
    } else {
      var z := x * Pow(2, c - 1);
      assert x * Pow(2, c) == 2 * z;
      OrUnfold(2 * z, y);
      OrDisjoint(x, c - 1, y / 2);
    }
  }

  lemma XorDouble(x: int, y: int, a: int, b: int)
    requires 0 <= a <= 1 && 0 <= b <= 1
    ensures Xor(2 * x + a, 2 * y + b) == 2 * Xor(x, y) + (if a == b then 0 else 1)
  {
    XorUnfold(2 * x + a, 2 * y + b);
  }

  // One bit of XorMod: the low bits of x and y, given the bits above them.
  lemma XorModStep(x: int, y: int, p: int)
    requires p > 0
    requires Xor(x / 2, y / 2) % p == Xor(x / 2 % p, y / 2 % p)
    ensures Xor(x, y) % (2 * p) == Xor(x % (2 * p), y % (2 * p))
  {
    hide Xor;
    var low := if x % 2 == y % 2 then 0 else 1;
    var z := Xor(x / 2, y / 2);
    XorUnfold(x, y);
    HalfMod(x, p);
    HalfMod(y, p);
    XorDouble(x / 2 % p, y / 2 % p, x % 2, y % 2);
    HalfMod(2 * z + low, p);
  }

  // Exclusive-or works bit by bit, so it commutes with dropping the high bits.
  lemma {:induction false} XorMod(x: int, y: int, n: nat)
    ensures Pow(2, n) > 0
    ensures Xor(x, y) % Pow(2, n) == Xor(x % Pow(2, n), y % Pow(2, n))
    decreases n
  {
    PowPositive(2, n);
    if n > 0 {
      PowPositive(2, n - 1);
      XorMod(x / 2, y / 2, n - 1);
      XorModStep(x, y, Pow(2, n - 1));
    } else {
      assert Xor(x % 1, y % 1) == 0;
    }
  }

  lemma {:induction false} AndZero(x: int)
    ensures And(0, x) == 0
    decreases Mag(x)
  {
    if Mag(x) != 0 {
      AndZero(x / 2);
    }
  }

  lemma {:induction false} AndOnes(x: int)
    ensures And(-1, x) == x
    decreases Mag(x)
  {
    if Mag(x) != 0 {
      AndOnes(x / 2);
    }
  }

  lemma HalfMod(x: int, p: int)
    requires p > 0
    ensures x % (2 * p) == 2 * ((x / 2) % p) + x % 2
  {
    var q, r := x / 2 / p, (x / 2) % p;
    assert x == (q * p + r) * 2 + x % 2;
    assert (q * p) * 2 == q * (2 * p);
    DivModUnique(x, 2 * p, q, 2 * r + x % 2);
  }

  // Masking with n ones is the remainder modulo 2^n, for negative numbers too.
  lemma {:induction false} AndMask(x: int, n: nat)
    ensures Pow(2, n) > 0
    ensures And(Pow(2, n) - 1, x) == x % Pow(2, n)
    decreases n
  {
    PowPositive(2, n);
    if n == 0 {
      AndZero(x);
    } else {
      PowPositive(2, n - 1);
      var p := Pow(2, n - 1);
      AndUnfold(2 * p - 1, x);
      AndMask(x / 2, n - 1);
      assert (2 * p - 1) / 2 == p - 1;
      HalfMod(x, p);
    }
  }

  // ---- byte strings ----

  function Ints(s: seq<byte>): (r: seq<int>)
    ensures |r| == |s| && forall i :: 0 <= i < |s| ==> r[i] == s[i] as int
  {
    seq(|s|, i requires 0 <= i < |s| => s[i] as int)
  }

  // Little-endian value.
  ghost function Le(s: seq<byte>): int { Val(Ints(s), 256) }

  lemma LeBound(s: seq<byte>)
    ensures 0 <= Le(s) < Pow(256, |s|)
  {
    DigitsBound(Ints(s), 256);
  }

  lemma ByteSuccessor(b: byte)
    requires b as int < 255
    ensures (b + 1) as int == b as int + 1
  {
  }

  lemma ByteOfItself(b: byte)
    ensures (b as int) as byte == b
  {
  }

  // Storing a number below 256 in a byte keeps it.
  lemma {:induction false} ByteOfInt(n: int)
    requires 0 <= n < 256
    ensures (n as byte) as int == n
    decreases n
  {
    if n > 0 {
      ByteOfInt(n - 1);
      var b := (n - 1) as byte;
      ByteSuccessor(b);
      ByteOfItself(b + 1);
    }
  }

  lemma SameByte(a: byte, b: byte)
    requires a as int == b as int
    ensures a == b
  {
    assert (a as int) as byte == a && (b as int) as byte == b;
  }

  lemma LeInjective(s: seq<byte>, t: seq<byte>)
    requires |s| == |t| && Le(s) == Le(t)
    ensures s == t
  {
    DigitsInjective(Ints(s), Ints(t), 256);
    forall i | 0 <= i < |s|
      ensures s[i] == t[i]
    {
      assert Ints(s)[i] == Ints(t)[i];
      assert s[i] == (s[i] as int) as byte;
    }
  }

  lemma LeConcat(s: seq<byte>, t: seq<byte>)
    ensures Le(s + t) == Le(s) + Pow(256, |s|) * Le(t)
  {
    hide Val, Pow, Ints;
    IntsConcat(s, t);
    ValConcat(Ints(s), Ints(t), 256);
  }

  lemma IntsConcat(s: seq<byte>, t: seq<byte>)
    ensures Ints(s + t) == Ints(s) + Ints(t)
  {
  }

  lemma LeFour(s: seq<byte>)
    requires |s| == 4
    ensures Le(s) == ((s[3] as int * 256 + s[2] as int) * 256 + s[1] as int) * 256 + s[0] as int
  {
    var d := Ints(s);
    assert Val(d[1..][1..][1..], 256) == d[3] + 256 * Val(d[1..][1..][1..][1..], 256);
    assert Val(d[1..][1..], 256) == d[2] + 256 * Val(d[1..][1..][1..], 256);
    assert Val(d[1..], 256) == d[1] + 256 * Val(d[1..][1..], 256);
  }

  // Sixteen bytes as four words.
  lemma LeSixteen(s: seq<byte>)
    requires |s| == 16
    ensures Le(s) == Le(s[..4]) + 0x1_0000_0000 * (Le(s[4..8])
      + 0x1_0000_0000 * (Le(s[8..12]) + 0x1_0000_0000 * Le(s[12..])))
  {
    hide Le;
    assert Pow(256, 4) == 0x1_0000_0000;
    assert s == s[..4] + s[4..] && s[4..] == s[4..8] + s[8..] && s[8..] == s[8..12] + s[12..];
    LeConcat(s[..4], s[4..]);
    LeConcat(s[4..8], s[8..]);
    LeConcat(s[8..12], s[12..]);
  }

  /** The len-byte little-endian form of n. */
  function LeBytes(n: nat, len: nat): (s: seq<byte>)
    ensures |s| == len
  {
    seq(len, i requires 0 <= i < len => DigitOf(n, 256, i) as byte)
  }

  lemma LeOfLeBytes(n: nat, len: nat)
    requires n < Pow(256, len)
    ensures Le(LeBytes(n, len)) == n
  {
    ToDigitsValue(n, 256, len);
    forall i | 0 <= i < len
      ensures Ints(LeBytes(n, len))[i] == ToDigits(n, 256, len)[i]
    {
      ByteOfInt(DigitOf(n, 256, i));
    }
    assert Ints(LeBytes(n, len)) == ToDigits(n, 256, len);
  }

  // Sixteen-bit limbs and their byte pairs have the same value.
  lemma {:induction false} PairsValue(limbs: seq<int>, bytes: seq<int>)
    requires |bytes| == 2 * |limbs|
    requires forall i :: 0 <= i < |limbs| ==> limbs[i] == bytes[2 * i] + 256 * bytes[2 * i + 1]
    ensures Val(bytes, 256) == Val(limbs, 65536)
  {
    if limbs != [] {
      assert bytes[1..][1..] == bytes[2..];
      PairsValue(limbs[1..], bytes[2..]);
      assert bytes[1..][0] == bytes[1];
    }
  }

  /** Constant-time comparison: 0 when the byte strings agree, -1 otherwise. */
  method Vn(x: seq<byte>, y: seq<byte>) returns (r: int)
    requires |x| == |y|
    ensures r == if x == y then 0 else -1
  {
    hide IsByte, Differ, Verdict;
    var d: bv64 := 0;
    ZeroIsByte();
    var i := 0;
    while i < |x|
      invariant 0 <= i <= |x|
      invariant d == 0 <==> forall k :: 0 <= k < i ==> x[k] == y[k]
      invariant IsByte(d)
    {
      OrDifference(d, x[i], y[i]);
      d := Differ(d, x[i], y[i]);
      i := i + 1;
    }
    BorrowBit(d);
    r := Verdict(d);
  }

  predicate IsByte(d: bv64) { d & 0xff == d }

  // d |= x ^ y
  function Differ(d: bv64, x: byte, y: byte): bv64 { d | ((x ^ y) as bv64) }

  // (1 & ((d - 1) >> 8)) - 1
  function Verdict(d: bv64): int { (1 & ((d - 1) >> 8)) as int - 1 }

  lemma ZeroIsByte()
    ensures IsByte(0)
  {
  }

  lemma OrDifference(d: bv64, x: byte, y: byte)
    requires IsByte(d)
    ensures Differ(d, x, y) == 0 <==> d == 0 && x == y
    ensures IsByte(Differ(d, x, y))
  {
  }

  lemma BorrowBit(d: bv64)
    requires IsByte(d)
    ensures Verdict(d) == if d == 0 then 0 else -1
  {
    assert 1 & ((d - 1) >> 8) == if d == 0 then 1 else 0;
  }

  lemma OrByte(u: int, b: byte)
    ensures Or(u * 256, b as int) == u * 256 + b as int
  {
    assert Pow(2, 8) == 256;
    OrDisjoint(u, 8, b as int);
  }

  // memcpy into part of a buffer.
  method CopyInto(a: array<byte>, at: nat, s: seq<byte>)
    requires at + |s| <= a.Length
    modifies a
    ensures a[..at] == old(a[..at]) && a[at..at + |s|] == s && a[at + |s|..] == old(a[at + |s|..])
  {
    var i := 0;
    while i < |s|
      invariant 0 <= i <= |s|
      invariant forall j :: 0 <= j < i ==> a[at + j] == s[j]
      invariant forall j :: 0 <= j < a.Length && (j < at || j >= at + i) ==> a[j] == old(a[j])
    {
      a[at + i] := s[i];
      i := i + 1;
    }
  }
}
