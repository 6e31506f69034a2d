/** crypto_onetimeauth of tweetnacl.c against section 2.5 of RFC 8439. */
module Poly1305 {
  import opened Arith
  import opened Limbs
  import opened Bits

  // The narrowest unsigned long C allows. Every value stored in one is checked to fit.
  type u32 = x: int | 0 <= x < 0x1_0000_0000

  const P1305: int := 0x3_ffff_ffff_ffff_ffff_ffff_ffff_ffff_fffb
  const R128: int := 0x1_0000_0000_0000_0000_0000_0000_0000_0000
  const R136: int := 0x100_0000_0000_0000_0000_0000_0000_0000_0000

  ghost function V8(s: seq<int>): int { Val(s, 256) }

  // ---- section 2.5 of RFC 8439 ----

  function ClampR(k: seq<byte>): (r: seq<byte>)
    requires |k| >= 16
    ensures |r| == 16
  {
    k[..16][3 := Masked(k[3], 15)][4 := Masked(k[4], 252)][7 := Masked(k[7], 15)][8 := Masked(k[8], 252)]
           [11 := Masked(k[11], 15)][12 := Masked(k[12], 252)][15 := Masked(k[15], 15)]
  }

  function Masked(b: byte, mask: byte): byte { b & mask }

  lemma LowNibble(b: byte)
    ensures Masked(b, 15) as int == b as int % 16
  {
  }

  lemma HighSix(b: byte)
    ensures Masked(b, 252) as int == b as int / 4 * 4
  {
  }

  lemma WordParts(a: int, b: int, c: int, d: int)
    requires 0 <= a < 256 && 0 <= b < 256 && 0 <= c < 256 && 0 <= d < 256
    ensures (((d * 256 + c) * 256 + b) * 256 + a) % 0x1000_0000 == ((d % 16 * 256 + c) * 256 + b) * 256 + a
    ensures (((d * 256 + c) * 256 + b) * 256 + a) % 0x1000_0000 / 4 * 4
         == ((d % 16 * 256 + c) * 256 + b) * 256 + a / 4 * 4
  {
    var w := ((d % 16 * 256 + c) * 256 + b) * 256 + a;
    DivModUnique(((d * 256 + c) * 256 + b) * 256 + a, 0x1000_0000, d / 16, w);
    DivModUnique(w, 4, ((d % 16 * 256 + c) * 256 + b) * 64 + a / 4, a % 4);
  }

  // A word of r: its top four bits go, and but for the first word its lowest two.
  lemma ClampWord(s: seq<byte>, t: seq<byte>, low: bool)
    requires |s| == |t| == 4 && s[1] == t[1] && s[2] == t[2] && t[3] as int == s[3] as int % 16
    requires t[0] as int == if low then s[0] as int / 4 * 4 else s[0] as int
    ensures Le(t) == if low then Le(s) % 0x1000_0000 / 4 * 4 else Le(s) % 0x1000_0000
  {
    hide *;
    LeFour(s);
    LeFour(t);
    WordParts(s[0] as int, s[1] as int, s[2] as int, s[3] as int);
  }

  // The clamped r, by the four little-endian words of the key's first half.
  ghost function ClampedWords(k: seq<byte>): int
    requires |k| == 32
  {
    Le(k[..4]) % 0x1000_0000 + 0x1_0000_0000 * (Le(k[4..8]) % 0x1000_0000 / 4 * 4
      + 0x1_0000_0000 * (Le(k[8..12]) % 0x1000_0000 / 4 * 4 + 0x1_0000_0000 * (Le(k[12..16]) % 0x1000_0000 / 4 * 4)))
  }

  /** Clamping as arithmetic: each word loses its top four bits, and all but the first their lowest two. */
  lemma ClampIs(k: seq<byte>)
    requires |k| == 32
    ensures Le(ClampR(k)) == ClampedWords(k)
  {
    hide Le, Masked;
    var r := ClampR(k);
    LeSixteen(r);
    HighSix(k[4]);
    HighSix(k[8]);
    HighSix(k[12]);
    LowNibble(k[3]);
    LowNibble(k[7]);
    LowNibble(k[11]);
    LowNibble(k[15]);
    ClampWord(k[..4], r[..4], false);
    ClampWord(k[4..8], r[4..8], true);
    ClampWord(k[8..12], r[8..12], true);
    ClampWord(k[12..16], r[12..], true);
  }

  function Min(x: nat, y: nat): nat { if x < y then x else y }

  ghost function Blocks(m: seq<byte>, r: int, acc: int): int
    decreases |m|
  {
    if m == [] then acc
    else
      var n := Min(16, |m|);
      Blocks(m[n..], r, (acc + Le(m[..n] + [1])) * r % P1305)
  }

  // The 16-byte tag, as a number.
  ghost function Tag(m: seq<byte>, k: seq<byte>): int
    requires |k| == 32
  {
    (Blocks(m, Le(ClampR(k)), 0) + Le(k[16..])) % R128
  }

  ghost function Mac(m: seq<byte>, k: seq<byte>): (t: seq<byte>)
    requires |k| == 32
    ensures |t| == 16
  {
    LeBytes(Tag(m, k), 16)
  }

  // ---- limbs ----

  lemma Powers()
    ensures Pow(256, 16) == R128
    ensures Pow(256, 17) == R136
  {
    assert Pow(256, 4) == 0x1_0000_0000;
    PowAdd(256, 4, 4);
    PowAdd(256, 8, 8);
    assert Pow(256, 17) == 256 * Pow(256, 16);
  }

  lemma AddColumn(x: int, y: int, u: int, p: int)
    ensures (u + x + y) % 256 * p + (u + x + y) / 256 * (256 * p) == u * p + x * p + y * p
  {
    Column(x + y, u, p);
  }

  /** h = h + c modulo 2^136, digit by digit. */
  method Add1305(h: array<u32>, c: seq<u32>)
    requires h.Length == |c| == 17
    requires Digits(h[..], 256) && Digits(c, 256)
    modifies h
    ensures Digits(h[..], 256)
    ensures V8(h[..]) == (V8(old(h[..])) + V8(c)) % R136
  {
    ghost var s: seq<int> := h[..];
    var u: u32 := 0;
    var j := 0;
    while j < 17
      invariant 0 <= j <= 17
      invariant forall k :: 0 <= k < j ==> 0 <= h[k] < 256
      invariant forall k :: j <= k < 17 ==> h[k] == s[k]
      invariant u <= 1
      invariant V8(h[..j]) + u * Pow(256, j) == V8(s[..j]) + V8(c[..j])
    {
      ghost var was := h[..j];
      AddColumn(s[j], c[j], u, Pow(256, j));
      u := u + (h[j] + c[j]);
      h[j] := u % 256;
      u := u / 256;
      assert h[..j] == was;
      ValPrefixStep(s, 256, j);
      ValPrefixStep(c, 256, j);
      ValPrefixStep(h[..], 256, j);
      assert h[..][..j] == h[..j] && h[..][..j + 1] == h[..j + 1];
      j := j + 1;
    }
    assert h[..17] == h[..] && s[..17] == s && c[..17] == c;
    DigitsBound(h[..], 256);
    Powers();
    DivModUnique(V8(s) + V8(c), R136, u, V8(h[..]));
  }

  // ---- the product, row by row ----

  // Limb i of r times 256^j, with the limbs that pass 2^136 folded back by 320.
  ghost function Rot(r: seq<int>, i: nat, j: nat): int
    requires |r| == 17 && i < 17 && j < 17
  {
    if j <= i then r[i - j] else 320 * r[i + 17 - j]
  }

  ghost function RotVec(r: seq<int>, j: nat): (s: seq<int>)
    requires |r| == 17 && j < 17
    ensures |s| == 17 && forall i :: 0 <= i < 17 ==> s[i] == Rot(r, i, j)
  {
    seq(17, i requires 0 <= i < 17 => Rot(r, i, j))
  }

  ghost function RowSum(h: seq<int>, r: seq<int>, i: nat, n: nat): int
    requires |h| == |r| == 17 && i < 17 && n <= 17
  {
    if n == 0 then 0 else RowSum(h, r, i, n - 1) + h[n - 1] * Rot(r, i, n - 1)
  }

  ghost function Rows(h: seq<int>, r: seq<int>, n: nat): (s: seq<int>)
    requires |h| == |r| == 17 && n <= 17
    ensures |s| == 17 && forall i :: 0 <= i < 17 ==> s[i] == RowSum(h, r, i, n)
  {
    seq(17, i requires 0 <= i < 17 => RowSum(h, r, i, n))
  }

  // One more factor of 256.
  lemma RotValue(r: seq<int>, j: nat)
    requires |r| == 17 && j < 16
    ensures V8(RotVec(r, j + 1)) % P1305 == 256 * V8(RotVec(r, j)) % P1305
  {
    var s, t := RotVec(r, j), RotVec(r, j + 1);
    assert t[1..] == s[..16];
    ValPrefixStep(s, 256, 16);
    assert s[..17] == s;
    Powers();
    assert V8(t) == 320 * s[16] + 256 * V8(s[..16]);
    ModAddMultiple(V8(t), 64 * s[16], P1305);
  }

  lemma {:induction false} RotIs(r: seq<int>, j: nat)
    requires |r| == 17 && j < 17
    ensures V8(RotVec(r, j)) % P1305 == Pow(256, j) * V8(r) % P1305
  {
    if j == 0 {
      assert RotVec(r, 0) == r;
    } else {
      RotIs(r, j - 1);
      RotValue(r, j - 1);
      var a, b := V8(RotVec(r, j - 1)), Pow(256, j - 1) * V8(r);
      ModMulLeft(a, 256, P1305);
      ModMulLeft(b, 256, P1305);
      assert 256 * b == Pow(256, j) * V8(r);
    }
  }

  lemma {:induction false} RowsValue(h: seq<int>, r: seq<int>, n: nat)
    requires |h| == |r| == 17 && n <= 17
    ensures V8(Rows(h, r, n)) % P1305 == V8(h[..n]) * V8(r) % P1305
  {
    if n == 0 {
      ValZeros(Rows(h, r, 0), 256);
    } else {
      RowsValue(h, r, n - 1);
      var x := h[n - 1];
      ValSum(Rows(h, r, n - 1), RotVec(r, n - 1), Rows(h, r, n), 256, x);
      ValPrefixStep(h, 256, n - 1);
      RotIs(r, n - 1);
      RowTerms(V8(Rows(h, r, n - 1)), V8(h[..n - 1]) * V8(r), x, V8(RotVec(r, n - 1)), Pow(256, n - 1) * V8(r));
      assert (V8(h[..n - 1]) + x * Pow(256, n - 1)) * V8(r) == V8(h[..n - 1]) * V8(r) + x * (Pow(256, n - 1) * V8(r));
    }
  }

  lemma RowTerms(a: int, b: int, x: int, c: int, d: int)
    requires a % P1305 == b % P1305 && c % P1305 == d % P1305
    ensures (a + x * c) % P1305 == (b + x * d) % P1305
  {
    ModMulLeft(c, x, P1305);
    ModMulLeft(d, x, P1305);
    ModAdd(a, x * c, P1305);
    ModAdd(b, x * d, P1305);
    assert c * x == x * c && d * x == x * d;
  }

  lemma TermBound(x: int, y: int)
    requires 0 <= x < 256 && 0 <= y <= 81600
    ensures 0 <= x * y <= 20808000
  {
    MulMono(x, 0, y);
    MulMono(x, y, 81600);
    assert x * 81600 <= 255 * 81600;
  }

  method MultiplyRows(x: array<u32>, h: array<u32>, r: array<u32>)
    requires x.Length == h.Length == r.Length == 17 && x != h && x != r
    requires Digits(h[..], 256) && Digits(r[..], 256)
    modifies x
    ensures x[..] == Rows(h[..], r[..], 17)
    ensures forall k :: 0 <= k < 17 ==> x[k] <= 353736000
  {
    ghost var sh: seq<int>, sr: seq<int> := h[..], r[..];
    var i := 0;
    while i < 17
      invariant 0 <= i <= 17
      invariant h[..] == sh && r[..] == sr
      invariant forall k :: 0 <= k < i ==> x[k] == RowSum(sh, sr, k, 17) && x[k] <= 353736000
    {
      x[i] := 0;
      var j := 0;
      while j < 17
        invariant 0 <= j <= 17
        invariant h[..] == sh && r[..] == sr
        invariant x[i] == RowSum(sh, sr, i, j) && x[i] <= 20808000 * j
        invariant forall k :: 0 <= k < i ==> x[k] == RowSum(sh, sr, k, 17) && x[k] <= 353736000
      {
        assert Rot(sr, i, j) == if j <= i then r[i - j] else 320 * r[i + 17 - j];
        TermBound(sh[j], Rot(sr, i, j));
        x[i] := x[i] + h[j] * (if j <= i then r[i - j] else 320 * r[i + 17 - j]);
        j := j + 1;
      }
      i := i + 1;
    }
  }

  // ---- the two carry passes ----

  /** Carry through limbs 0 to 15, starting from u; the carry out is returned. */
  method CarrySixteen(h: array<u32>, u0: u32) returns (u: u32)
    requires h.Length == 17 && u0 <= 0x4000_0000
    requires forall k :: 0 <= k < 16 ==> h[k] <= 353736000
    modifies h
    ensures u <= 0x500_0000
    ensures h[16] == old(h[16]) && forall k :: 0 <= k < 16 ==> 0 <= h[k] < 256
    ensures V8(h[..16]) + u * R128 == V8(old(h[..16])) + u0
  {
    ghost var s: seq<int> := h[..];
    u := u0;
    var j := 0;
    while j < 16
      invariant 0 <= j <= 16
      invariant forall k :: 0 <= k < j ==> 0 <= h[k] < 256
      invariant forall k :: j <= k < 17 ==> h[k] == s[k]
      invariant u <= if j == 0 then 0x4000_0000 else 0x500_0000
      invariant V8(h[..j]) + u * Pow(256, j) == V8(s[..j]) + u0
    {
      ghost var was := h[..j];
      Column(s[j], u, Pow(256, j));
      u := u + h[j];
      h[j] := u % 256;
      u := u / 256;
      assert h[..j] == was;
      ValPrefixStep(s, 256, j);
      ValPrefixStep(h[..], 256, j);
      assert h[..][..j] == h[..j] && h[..][..j + 1] == h[..j + 1];
      j := j + 1;
    }
    Powers();
  }

  // Folding 2^130 to 5: what the two passes do to the value.
  lemma FoldTop(v: int, low: int, top: int)
    requires v == low + top * R128 && top >= 0
    ensures (low + 5 * (top / 4) + top % 4 * R128) % P1305 == v % P1305
  {
    assert top == top / 4 * 4 + top % 4;
    ModAddMultiple(v, -(top / 4), P1305);
  }

  lemma SplitTop(h: seq<int>)
    requires |h| == 17
    ensures V8(h) == V8(h[..16]) + h[16] * R128
    ensures Digits(h[..16], 256) ==> 0 <= V8(h[..16]) < R128
  {
    ValPrefixStep(h, 256, 16);
    assert h[..17] == h;
    Powers();
    if Digits(h[..16], 256) {
      DigitsBound(h[..16], 256);
    }
  }

  // The same about an array.
  lemma TopOf(h: array<u32>)
    requires h.Length == 17
    ensures V8(h[..]) == V8(h[..16]) + h[16] * R128
    ensures (forall k :: 0 <= k < 16 ==> 0 <= h[k] < 256) ==> 0 <= V8(h[..16]) < R128
  {
    hide V8;
    SplitTop(h[..]);
    assert h[..][..16] == h[..16];
  }

  // Down to bytes, with two bits in the top limb; five times the rest of the top is what the next pass starts from.
  method FirstPass(h: array<u32>) returns (u: u32, ghost top: int)
    requires h.Length == 17 && forall k :: 0 <= k < 17 ==> h[k] <= 353736000
    modifies h
    ensures 0 <= top <= 0x1b00_0000 && h[16] == top % 4 && u == 5 * (top / 4)
    ensures forall k :: 0 <= k < 16 ==> 0 <= h[k] < 256
    ensures V8(h[..16]) + top * R128 == V8(old(h[..]))
  {
    hide Val, V8, Pow;
    TopOf(h);
    u := CarrySixteen(h, 0);
    ghost var low := V8(h[..16]);
    u := u + h[16];
    top := u;
    h[16] := u % 4;
    u := 5 * (u / 4);
    assert V8(h[..16]) == low;
  }

  // Bytes again, the carry added to the top limb.
  method SecondPass(h: array<u32>, u0: u32)
    requires h.Length == 17 && u0 <= 0x4000_0000 && h[16] < 4
    requires forall k :: 0 <= k < 16 ==> 0 <= h[k] < 256
    modifies h
    ensures Digits(h[..], 256) && h[16] <= 4
    ensures V8(h[..]) == V8(old(h[..16])) + u0 + old(h[16]) * R128
  {
    hide Val, V8, Pow;
    TopOf(h);
    var u := CarrySixteen(h, u0);
    TopOf(h);
    ghost var low := V8(h[..16]);
    u := u + h[16];
    h[16] := u;
    assert V8(h[..16]) == low;
    TopOf(h);
  }

  /** The two carry passes: the same residue, with limbs back to digits. */
  method Squeeze(h: array<u32>)
    requires h.Length == 17 && forall k :: 0 <= k < 17 ==> h[k] <= 353736000
    modifies h
    ensures Digits(h[..], 256) && h[16] <= 4
    ensures V8(h[..]) % P1305 == V8(old(h[..])) % P1305
  {
    hide Val, V8, Pow, Digits;
    ghost var v := V8(h[..]);
    var u, top := FirstPass(h);
    FoldTop(v, V8(h[..16]), top);
    SecondPass(h, u);
  }

  // One block's multiplication: h = h * r modulo 2^130 - 5, partially reduced.
  method MultiplyReduce(h: array<u32>, r: array<u32>, x: array<u32>)
    requires x.Length == h.Length == r.Length == 17 && x != h && x != r && h != r
    requires Digits(h[..], 256) && Digits(r[..], 256)
    modifies h, x
    ensures Digits(h[..], 256) && h[16] <= 4
    ensures V8(h[..]) % P1305 == V8(old(h[..])) * V8(r[..]) % P1305
  {
    MultiplyRows(x, h, r);
    RowsValue(h[..], r[..], 17);
    assert h[..17] == h[..];
    CopyLimbs(h, x);
    Squeeze(h);
  }

  method CopyLimbs(h: array<u32>, x: array<u32>)
    requires h.Length == x.Length == 17 && h != x
    modifies h
    ensures h[..] == x[..]
  {
    var i := 0;
    while i < 17
      invariant 0 <= i <= 17
      invariant forall k :: 0 <= k < i ==> h[k] == x[k]
    {
      h[i] := x[i];
      i := i + 1;
    }
  }

  // ---- the final reduction ----

  // 2^136 - (2^130 - 5)
  const MINUS_P: seq<u32> := [5, 0, 0, 0, 0, 0, 0, 0, 0, 0, 0, 0, 0, 0, 0, 0, 252]

  lemma MinusPValue()
    ensures Digits(MINUS_P, 256) && V8(MINUS_P) == R136 - P1305
  {
    SparseValue(MINUS_P);
  }

  lemma SparseValue(m: seq<int>)
    requires |m| == 17 && forall i :: 1 <= i < 16 ==> m[i] == 0
    ensures V8(m) == m[0] + m[16] * R128
  {
    ZeroTail(m[..16], m[0]);
    LastDigit(m[..16], m[16]);
    assert m == m[..16] + [m[16]];
  }

  lemma ZeroTail(t: seq<int>, d: int)
    requires t != [] && t[0] == d && forall i :: 1 <= i < |t| ==> t[i] == 0
    ensures V8(t) == d
  {
    ValZeros(t[1..], 256);
  }

  lemma LastDigit(t: seq<int>, d: int)
    requires |t| == 16
    ensures V8(t + [d]) == V8(t) + d * R128
  {
    Powers();
    ValAppend(t, 256, d);
  }

  // h ^= s & (g ^ h) with an all-ones or zero mask.
  lemma MaskSelect(g: int, h: int, s: int, bit: int)
    requires 0 <= g < 256 && 0 <= h < 256
    requires if bit == 1 then s == 0xffff_ffff else s == 0
    ensures Xor(h, And(s, Xor(g, h))) == if bit == 1 then g else h
  {
    if bit == 1 {
      XorCancel(g, h);
      ByteXor(g, h);
      AllOnes(s, Xor(g, h));
    } else {
      XorZero(h);
      AndZero(Xor(g, h));
    }
  }

  lemma ByteXor(g: int, h: int)
    requires 0 <= g < 256 && 0 <= h < 256
    ensures 0 <= Xor(g, h) < 256
  {
    assert Pow(2, 8) == 256;
    XorRange(g, h, 8);
    XorNonNegative(g, h);
  }

  lemma AllOnes(s: int, x: int)
    requires s == 0xffff_ffff && 0 <= x < 256
    ensures And(s, x) == x
  {
    assert Pow(2, 8) == 256;
    PowPow(2, 8, 4);
    assert Pow(256, 4) == 0x1_0000_0000;
    AndMask(x, 32);
    ModSmall(x, 0x1_0000_0000);
  }

  // The top limb of h + 2^136 - p tells whether h was below p.
  lemma TopBit(h: seq<int>, v: int)
    requires |h| == 17 && Digits(h, 256) && 0 <= v < 5 * R128
    requires V8(h) == (v + (R136 - P1305)) % R136
    ensures h[16] / 128 == if v < P1305 then 1 else 0
    ensures v >= P1305 ==> V8(h) == v - P1305
  {
    Powers();
    ValPrefixStep(h, 256, 16);
    assert h[..17] == h;
    DigitsBound(h[..16], 256);
    if v < P1305 {
      DivModUnique(v + (R136 - P1305), R136, 0, v + (R136 - P1305));
    } else {
      DivModUnique(v + (R136 - P1305), R136, 1, v - P1305);
    }
  }

  /** h = g if the top bit of h is set, by masked exclusive-or. */
  method SelectLimbs(h: array<u32>, g: array<u32>)
    requires h.Length == g.Length == 17 && h != g && Digits(h[..], 256) && Digits(g[..], 256)
    modifies h
    ensures h[..] == if old(h[16]) / 128 == 1 then g[..] else old(h[..])
  {
    var bit: int := h[16] / 128;
    var s: u32 := (0x1_0000_0000 - bit) % 0x1_0000_0000;
    var j := 0;
    while j < 17
      invariant 0 <= j <= 17
      invariant forall k :: 0 <= k < j ==> h[k] == if bit == 1 then g[k] else old(h[k])
      invariant forall k :: j <= k < 17 ==> h[k] == old(h[k])
    {
      MaskSelect(g[j], h[j], s, bit);
      h[j] := Xor(h[j], And(s, Xor(g[j], h[j])));
      j := j + 1;
    }
  }

  /** h = h mod p, by a masked choice between h and h - p. */
  method Freeze(h: array<u32>)
    requires h.Length == 17 && Digits(h[..], 256) && h[16] <= 4
    modifies h
    ensures Digits(h[..], 256) && V8(h[..]) == V8(old(h[..])) % P1305
  {
    ghost var v := V8(h[..]);
    AccumulatorBound(h[..]);
    var g: array<u32> := new u32[17];
    CopyLimbs(g, h);
    MinusPValue();
    Add1305(h, MINUS_P);
    TopBit(h[..], v);
    SelectLimbs(h, g);
    FrozenValue(v, V8(h[..]));
  }

  lemma FrozenValue(v: int, w: int)
    requires 0 <= v < 5 * R128 && w == if v < P1305 then v else v - P1305
    ensures w == v % P1305
  {
    DivModUnique(v, P1305, if v < P1305 then 0 else 1, w);
  }

  lemma AccumulatorBound(h: seq<int>)
    requires |h| == 17 && Digits(h, 256) && h[16] <= 4
    ensures 0 <= V8(h) < 5 * R128
  {
    Powers();
    ValPrefixStep(h, 256, 16);
    assert h[..17] == h;
    DigitsBound(h[..16], 256);
  }

  // ---- one message ----

  /** The next block: up to sixteen bytes and a one. */
  method LoadBlock(c: array<u32>, m: seq<byte>)
    requires c.Length == 17 && m != []
    modifies c
    ensures Digits(c[..], 256)
    ensures V8(c[..]) == Le(m[..Min(16, |m|)] + [1])
  {
    var j := 0;
    while j < 17
      invariant 0 <= j <= 17
      invariant forall k :: 0 <= k < j ==> c[k] == 0
    {
      c[j] := 0;
      j := j + 1;
    }
    j := 0;
    while j < 16 && j < |m|
      invariant 0 <= j <= Min(16, |m|)
      invariant forall k :: 0 <= k < j ==> c[k] == m[k] as int
      invariant forall k :: j <= k < 17 ==> c[k] == 0
    {
      c[j] := m[j] as int;
      j := j + 1;
    }
    c[j] := 1;
    BlockValue(c[..], m[..j] + [1]);
  }

  lemma BlockValue(c: seq<int>, b: seq<byte>)
    requires |b| <= |c| == 17
    requires forall k :: 0 <= k < |b| ==> c[k] == b[k] as int
    requires forall k :: |b| <= k < 17 ==> c[k] == 0
    ensures Digits(c, 256) && V8(c) == Le(b)
  {
    assert c[..|b|] == Ints(b);
    assert c == c[..|b|] + c[|b|..];
    ValConcat(c[..|b|], c[|b|..], 256);
    ValZeros(c[|b|..], 256);
  }

  /** r: the first half of the key, with 22 bits cleared. */
  method CopyKey(r: array<u32>, k: seq<byte>)
    requires r.Length == 17 && |k| == 32
    modifies r
    ensures r[16] == 0 && forall i :: 0 <= i < 16 ==> r[i] == k[i] as int
  {
    r[16] := 0;
    var j := 0;
    while j < 16
      invariant 0 <= j <= 16
      invariant r[16] == 0
      invariant forall i :: 0 <= i < j ==> r[i] == k[i] as int
    {
      r[j] := k[j] as int;
      j := j + 1;
    }
  }

  ghost predicate Holds(r: seq<int>, s: seq<byte>)
    requires |r| == 17 && |s| == 16
  {
    r[16] == 0 && forall i :: 0 <= i < 16 ==> r[i] == s[i] as int
  }

  // r[j] &= mask
  method MaskLimb(r: array<u32>, j: nat, mask: byte, ghost s: seq<byte>) returns (ghost t: seq<byte>)
    requires r.Length == 17 && |s| == 16 && j < 16 && Holds(r[..], s)
    modifies r
    ensures |t| == 16 && t == s[j := Masked(s[j], mask)] && Holds(r[..], t)
  {
    ByteOfInt(r[j]);
    SameByte(r[j] as byte, s[j]);
    r[j] := Masked(r[j] as byte, mask) as int;
    t := s[j := Masked(s[j], mask)];
  }

  method LoadKey(r: array<u32>, k: seq<byte>)
    requires r.Length == 17 && |k| == 32
    modifies r
    ensures Digits(r[..], 256) && V8(r[..]) == Le(ClampR(k))
  {
    hide Masked;
    CopyKey(r, k);
    ghost var s := k[..16];
    s := MaskLimb(r, 3, 15, s);
    s := MaskLimb(r, 4, 252, s);
    s := MaskLimb(r, 7, 15, s);
    s := MaskLimb(r, 8, 252, s);
    s := MaskLimb(r, 11, 15, s);
    s := MaskLimb(r, 12, 252, s);
    s := MaskLimb(r, 15, 15, s);
    assert s == ClampR(k);
    BlockValue(r[..], ClampR(k));
  }

  lemma BlockStep(m: seq<byte>, r: int, acc: int, h: int)
    requires m != [] && h % P1305 == (acc + Le(m[..Min(16, |m|)] + [1])) * r % P1305
    ensures Blocks(m, r, acc) == Blocks(m[Min(16, |m|)..], r, h % P1305)
  {
  }

  // The accumulator is only partially reduced; the next block depends on its residue alone.
  lemma AccumulatorResidue(acc: int, c: int, r: int, h: int)
    requires h % P1305 == acc % P1305
    ensures (h + c) * r % P1305 == (acc % P1305 + c) * r % P1305
  {
    ModAdd(h, c, P1305);
    ModAdd(acc % P1305, c, P1305);
    assert acc % P1305 % P1305 == acc % P1305;
    ModMulLeft(h + c, r, P1305);
    ModMulLeft(acc % P1305 + c, r, P1305);
  }

  /** Absorb the message: h ends congruent to the polynomial, partially reduced. */
  method Absorb(h: array<u32>, r: array<u32>, m: seq<byte>)
    requires h.Length == r.Length == 17 && h != r
    requires Digits(r[..], 256) && forall k :: 0 <= k < 17 ==> h[k] == 0
    modifies h
    ensures Digits(h[..], 256) && h[16] <= 4
    ensures V8(h[..]) % P1305 == Blocks(m, V8(r[..]), 0)
  {
    var x: array<u32>, c: array<u32> := new u32[17], new u32[17];
    ghost var vr := V8(r[..]);
    ValZeros(h[..], 256);
    var rest := m;
    while rest != []
      invariant Digits(h[..], 256) && h[16] <= 4
      invariant Digits(r[..], 256) && V8(r[..]) == vr
      invariant Blocks(m, vr, 0) == Blocks(rest, vr, V8(h[..]) % P1305)
      decreases |rest|
    {
      ghost var acc := V8(h[..]);
      LoadBlock(c, rest);
      AccumulatorBound(h[..]);
      BlockBound(rest);
      ModSmall(acc + V8(c[..]), R136);
      Add1305(h, c[..]);
      MultiplyReduce(h, r, x);
      AccumulatorResidue(acc, V8(c[..]), vr, acc);
      BlockStep(rest, vr, acc % P1305, V8(h[..]));
      rest := rest[Min(16, |rest|)..];
    }
  }

  lemma BlockBound(m: seq<byte>)
    requires m != []
    ensures 0 <= Le(m[..Min(16, |m|)] + [1]) <= R136 - 5 * R128
  {
    var b := m[..Min(16, |m|)];
    ValAppend(Ints(b), 256, 1);
    assert Ints(b + [1]) == Ints(b) + [1];
    LeBound(b);
    PowMono(|b|, 16);
    Powers();
  }

  lemma PowMono(i: nat, j: nat)
    requires i <= j
    ensures Pow(256, i) <= Pow(256, j)
  {
    PowPositive(256, j - i);
    PowAdd(256, i, j - i);
    MulMono(Pow(256, i), 1, Pow(256, j - i));
  }

  /** out[oo..oo+16] = Poly1305 of m[mo..mo+n] under k[ko..ko+32]. The output may overlap both inputs:
      it is written after the last read. */
  method CryptoOnetimeauth(out: array<byte>, oo: nat, m: array<byte>, mo: nat, n: nat, k: array<byte>, ko: nat)
    requires oo + 16 <= out.Length && mo + n <= m.Length && ko + 32 <= k.Length
    modifies out
    ensures out[oo..oo + 16] == Mac(old(m[mo..mo + n]), old(k[ko..ko + 32]))
    ensures forall i :: 0 <= i < out.Length && (i < oo || i >= oo + 16) ==> out[i] == old(out[i])
  {
    var r: array<u32>, h: array<u32> := new u32[17], new u32[17](i => 0);
    LoadKey(r, k[ko..ko + 32]);
    Absorb(h, r, m[mo..mo + n]);
    Freeze(h);
    var c := k[ko + 16..ko + 32];
    assert c == k[ko..ko + 32][16..];
    AddKeyAndStore(out, oo, h, c);
  }

  // The last loop of crypto_onetimeauth.
  method StoreTag(out: array<byte>, oo: nat, h: array<u32>)
    requires oo + 16 <= out.Length && h.Length == 17 && out as object != h as object && Digits(h[..16], 256)
    modifies out
    ensures Ints(out[oo..oo + 16]) == h[..16]
    ensures forall i :: 0 <= i < out.Length && (i < oo || i >= oo + 16) ==> out[i] == old(out[i])
  {
    var j := 0;
    while j < 16
      invariant 0 <= j <= 16
      invariant forall i :: 0 <= i < j ==> out[oo + i] as int == h[i]
      invariant forall i :: 0 <= i < out.Length && (i < oo || i >= oo + 16) ==> out[i] == old(out[i])
    {
      assert h[..16][j] == h[j];
      ByteOfInt(h[j]);
      out[oo + j] := h[j] as byte;
      j := j + 1;
    }
  }

  method AddKeyAndStore(out: array<byte>, oo: nat, h: array<u32>, c: seq<byte>)
    requires oo + 16 <= out.Length && h.Length == 17 && |c| == 16
    requires out as object != h as object
    requires Digits(h[..], 256) && V8(h[..]) < P1305
    modifies out, h
    ensures out[oo..oo + 16] == LeBytes(old(V8(h[..]) + Le(c)) % R128, 16)
    ensures forall i :: 0 <= i < out.Length && (i < oo || i >= oo + 16) ==> out[i] == old(out[i])
  {
    ghost var v := V8(h[..]) + Le(c);
    DigitsBound(h[..], 256);
    KeyLimbs(c);
    ModSmall(v, R136);
    Add1305(h, Ints(c) + [0]);
    LowHalf(h[..], v);
    StoreTag(out, oo, h);
    Powers();
    LeOfLeBytes(v % R128, 16);
    LeInjective(out[oo..oo + 16], LeBytes(v % R128, 16));
  }

  lemma KeyLimbs(c: seq<byte>)
    requires |c| == 16
    ensures Digits(Ints(c) + [0], 256) && V8(Ints(c) + [0]) == Le(c) && 0 <= Le(c) < R128
  {
    ValAppend(Ints(c), 256, 0);
    LeBound(c);
    Powers();
  }

  lemma LowHalf(h: seq<int>, v: int)
    requires |h| == 17 && Digits(h, 256) && V8(h) == v
    ensures V8(h[..16]) == v % R128
  {
    ValPrefixStep(h, 256, 16);
    assert h[..17] == h;
    DigitsBound(h[..16], 256);
    Powers();
    DivModUnique(v, R128, h[16], V8(h[..16]));
  }

  /** 0 exactly when tag is the tag of the message, -1 otherwise. */
  method CryptoOnetimeauthVerify(tag: seq<byte>, m: array<byte>, mo: nat, n: nat, k: array<byte>) returns (r: int)
    requires |tag| == 16 && mo + n <= m.Length && k.Length == 32
    ensures r == if tag == Mac(m[mo..mo + n], k[..]) then 0 else -1
  {
    var x := new byte[16];
    CryptoOnetimeauth(x, 0, m, mo, n, k, 0);
    assert x[0..16] == x[..] && k[0..32] == k[..];
    r := Vn(tag, x[..]);
  }
}
