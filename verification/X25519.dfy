/** crypto_scalarmult of tweetnacl.c against the X25519 function of section 5 of RFC 7748. */
module X25519 {
  import opened Arith
  import opened Limbs
  import opened Bits
  import opened Field25519
  import opened FieldCodec

  // ---- section 5 of RFC 7748 ----

  datatype Ladder = Ladder(x2: nat, z2: nat, x3: nat, z3: nat)

  function CSwap(swap: int, s: Ladder): Ladder
  {
    if swap == 1 then Ladder(s.x3, s.z3, s.x2, s.z2) else s
  }

  function Step(x1: nat, s: Ladder): Ladder
  {
    var a := FAdd(s.x2, s.z2);
    var aa := FMul(a, a);
    var b := FSub(s.x2, s.z2);
    var bb := FMul(b, b);
    var e := FSub(aa, bb);
    var c := FAdd(s.x3, s.z3);
    var d := FSub(s.x3, s.z3);
    var da := FMul(d, a);
    var cb := FMul(c, b);
    var x3 := FMul(FAdd(da, cb), FAdd(da, cb));
    var z3 := FMul(x1, FMul(FSub(da, cb), FSub(da, cb)));
    var x2 := FMul(aa, bb);
    var z2 := FMul(e, FAdd(aa, FMul(121665, e)));
    Ladder(x2, z2, x3, z3)
  }

  function ScalarBit(k: int, t: nat): int
  {
    PowPositive(2, t);
    k / Pow(2, t) % 2
  }

  // The state after the iterations for bits 254 down to t, with the pending swap.
  ghost function RfcLadder(k: int, u: nat, t: nat): (Ladder, int)
    requires t <= 255
    decreases 255 - t
  {
    if t == 255 then (Ladder(1, 0, u, 1), 0)
    else
      var (s, swap) := RfcLadder(k, u, t + 1);
      var kt := ScalarBit(k, t);
      var swap' := if swap == kt then 0 else 1;
      (Step(u, CSwap(swap', s)), kt)
  }

  // X25519(k, u) for a decoded scalar and u-coordinate.
  ghost function Rfc7748(k: int, u: nat): int
  {
    var (s, swap) := RfcLadder(k, u, 0);
    var r := CSwap(swap, s);
    FMul(r.x2, Pow(r.z2, P - 2) % P)
  }

  // decodeScalar25519
  function Clamp(n: seq<byte>): (z: seq<byte>)
    requires |n| == 32
    ensures |z| == 32
  {
    n[0 := n[0] & 248][31 := (n[31] & 127) | 64]
  }

  lemma ClampedBytes(b: byte)
    ensures (b & 248) as int % 8 == 0
    ensures 64 <= ((b & 127) | 64) as int < 128
  {
  }

  lemma TopByte(v: int, low: int, top: int, p: int)
    requires 0 <= low < p && 64 <= top < 128 && v == low + top * p
    ensures 64 * p <= v < 128 * p
  {
    MulMono(p, 64, top);
    MulMono(p, top, 127);
  }

  /** A clamped scalar is 2^254 plus eight times a number below 2^251. */
  lemma ClampMeaning(n: seq<byte>)
    requires |n| == 32
    ensures Le(Clamp(n)) % 8 == 0
    ensures 64 * Pow(256, 31) <= Le(Clamp(n)) < 128 * Pow(256, 31)
  {
    var z := Clamp(n);
    var d := Ints(z);
    ClampedBytes(n[0]);
    ClampedBytes(n[31]);
    assert d[0] == z[0] as int && d[31] == z[31] as int;
    assert Le(z) == d[0] + 256 * Val(d[1..], 256);
    LowEight(d[0], Val(d[1..], 256));
    assert d == d[..31] + [d[31]];
    ValAppend(d[..31], 256, d[31]);
    DigitsBound(d[..31], 256);
    TopByte(Le(z), Val(d[..31], 256), d[31], Pow(256, 31));
  }

  lemma LowEight(x: int, v: int)
    requires x % 8 == 0
    ensures (x + 256 * v) % 8 == 0
  {
    var q := x / 8;
    assert x + 256 * v == (q + 32 * v) * 8 + 0;
    DivModUnique(x + 256 * v, 8, q + 32 * v, 0);
  }

  lemma ClampedLow(b: byte)
    ensures (b & 248) as int == 8 * (b as int / 8)
  {
  }

  lemma ClampedHigh(b: byte)
    ensures ((b & 127) | 64) as int == 64 + b as int % 64
  {
  }

  lemma Powers()
    ensures Pow(256, 30) == Pow(2, 240) && Pow(256, 31) == Pow(2, 248) && Pow(2, 248) == 256 * Pow(2, 240)
    ensures Pow(2, 251) == 8 * Pow(2, 248) && Pow(2, 254) == 64 * Pow(2, 248) && Pow(2, 240) > 0
  {
    assert Pow(2, 8) == 256;
    PowPow(2, 8, 30);
    PowPow(2, 8, 31);
    PowAdd(2, 8, 240);
    PowAdd(2, 3, 248);
    PowAdd(2, 6, 248);
    PowPositive(2, 240);
  }

  // A 32-byte number by its first byte, its last, and what is between.
  lemma Ends(s: seq<byte>)
    requires |s| == 32
    ensures Le(s) == s[0] as int + 256 * Le(s[1..31]) + Pow(2, 248) * s[31] as int
    ensures 0 <= Le(s[1..31]) < Pow(2, 240)
  {
    hide Val, Pow, Ints;
    Powers();
    assert s == s[..31] + s[31..] && s[..31] == s[..1] + s[1..31];
    LeConcat(s[..31], s[31..]);
    LeConcat(s[..1], s[1..31]);
    LeByte(s[0]);
    LeByte(s[31]);
    assert s[..1] == [s[0]] && s[31..] == [s[31]];
    LeBound(s[1..31]);
  }

  lemma LeByte(b: byte)
    ensures Le([b]) == b as int && Pow(256, 1) == 256
  {
    var d := Ints([b]);
    assert d == [b as int] && d[1..] == [];
    assert Val(d, 256) == d[0] + 256 * Val([], 256);
    assert Pow(256, 1) == 256 * Pow(256, 0);
  }

  // With x = p * k and y = p * l for h = 64 * k + l.
  lemma ClampLinear(a: int, m: int, p: int, k: int, x: int, y: int)
    requires 0 <= a < 256 && 0 <= m < p && 0 <= y <= 63 * p && x == p * k
    ensures (a + 256 * m + 256 * (64 * x + y)) / 8 % (2048 * p) == a / 8 + 32 * m + 32 * y
  {
    var r := a / 8 + 32 * m + 32 * y;
    DivModUnique(a + 256 * m + 256 * (64 * x + y), 8, r + 2048 * x, a % 8);
    assert 2048 * x == k * (2048 * p);
    DivModUnique(r + 2048 * x, 2048 * p, k, r);
  }

  lemma ClampArithmetic(a: int, m: int, h: int, p: int, q: int)
    requires 0 <= a < 256 && 0 <= m < p && 0 <= h < 256 && q == 256 * p
    ensures 8 * (a / 8) + 256 * m + q * (64 + h % 64)
         == 64 * q + 8 * ((a + 256 * m + q * h) / 8 % (8 * q))
  {
    var k, l := h / 64, h % 64;
    Spread(p, k, l);
    MulMono(p, l, 63);
    MulMono(p, 0, l);
    ClampLinear(a, m, p, k, p * k, p * l);
  }

  lemma Spread(p: int, k: int, l: int)
    ensures 256 * p * (64 * k + l) == 256 * (64 * (p * k) + p * l)
    ensures 256 * p * (64 + l) == 64 * (256 * p) + 256 * (p * l)
  {
  }

  /** A clamped scalar is 2^254 plus eight times the 251 bits of the scalar from the third on. */
  lemma ClampNumber(n: seq<byte>)
    requires |n| == 32
    ensures Pow(2, 251) > 0 && Le(Clamp(n)) == Pow(2, 254) + 8 * (Le(n) / 8 % Pow(2, 251))
  {
    hide Pow, Le;
    var z := Clamp(n);
    Powers();
    Ends(n);
    Ends(z);
    assert z[1..31] == n[1..31];
    ClampedLow(n[0]);
    ClampedHigh(n[31]);
    ClampArithmetic(n[0] as int, Le(n[1..31]), n[31] as int, Pow(2, 240), Pow(2, 248));
  }

  // ---- scalar bits ----

  // Bytes above position q do not reach the digit at q.
  lemma {:induction false} DigitAt(s: seq<int>, q: nat)
    requires q < |s| && Digits(s, 256)
    ensures Pow(256, q) > 0
    ensures Val(s, 256) / Pow(256, q) == Val(s[q..], 256)
  {
    PowPositive(256, q);
    ValConcat(s[..q], s[q..], 256);
    assert s == s[..q] + s[q..];
    DigitsBound(s[..q], 256);
    var p, v, low := Pow(256, q), Val(s[q..], 256), Val(s[..q], 256);
    assert p * v == v * p;
    DivModUnique(v * p + low, p, v, low);
  }

  lemma ByteBit0(b: byte) ensures ((b >> 0) & 1) as int == b as int % 2 {}
  lemma ByteBit1(b: byte) ensures ((b >> 1) & 1) as int == b as int / 2 % 2 {}
  lemma ByteBit2(b: byte) ensures ((b >> 2) & 1) as int == b as int / 4 % 2 {}
  lemma ByteBit3(b: byte) ensures ((b >> 3) & 1) as int == b as int / 8 % 2 {}
  lemma ByteBit4(b: byte) ensures ((b >> 4) & 1) as int == b as int / 16 % 2 {}
  lemma ByteBit5(b: byte) ensures ((b >> 5) & 1) as int == b as int / 32 % 2 {}
  lemma ByteBit6(b: byte) ensures ((b >> 6) & 1) as int == b as int / 64 % 2 {}
  lemma ByteBit7(b: byte) ensures ((b >> 7) & 1) as int == b as int / 128 % 2 {}

  lemma ByteBit(b: byte, s: nat)
    requires s < 8
    ensures Pow(2, s) > 0
    ensures ((b >> s) & 1) as int == b as int / Pow(2, s) % 2
  {
    PowPositive(2, s);
    if {
      case s == 0 => ByteBit0(b); assert Pow(2, 0) == 1;
      case s == 1 => ByteBit1(b); assert Pow(2, 1) == 2;
      case s == 2 => ByteBit2(b); assert Pow(2, 2) == 4;
      case s == 3 => ByteBit3(b); assert Pow(2, 3) == 8;
      case s == 4 => ByteBit4(b); assert Pow(2, 4) == 16;
      case s == 5 => ByteBit5(b); assert Pow(2, 5) == 32;
      case s == 6 => ByteBit6(b); assert Pow(2, 6) == 64;
      case s == 7 => ByteBit7(b); assert Pow(2, 7) == 128;
    }
  }

  // Bit t of a little-endian number is bit t mod 8 of its byte t / 8.
  lemma ScalarBitOfBytes(z: seq<byte>, t: nat)
    requires t < 8 * |z|
    ensures ScalarBit(Le(z), t) == ((z[t / 8] >> (t % 8)) & 1) as int
  {
    var q, s := t / 8, t % 8;
    var d := Ints(z);
    PowAdd(2, 8 * q, s);
    assert Pow(2, 8) == 256;
    PowPow(2, 8, q);
    DigitAt(d, q);
    PowPositive(2, s);
    DivDiv(Le(z), Pow(256, q), Pow(2, s));
    var hi := Val(d[q..][1..], 256);
    assert Val(d[q..], 256) == d[q] + 256 * hi;
    ByteBit(z[q], s);
    PowAdd(2, s, 7 - s);
    assert Pow(2, 7) == 128;
    HighPart(d[q], hi, Pow(2, s), Pow(2, 7 - s));
  }

  lemma HighPart(x: int, hi: int, p: int, r: int)
    requires p > 0 && p * r == 128
    ensures (x + 256 * hi) / p % 2 == x / p % 2
  {
    var q, m, z := x / p, x % p, r * hi;
    assert z * p == (p * r) * hi;
    assert (q + 2 * z) * p == q * p + 2 * (z * p);
    DivModUnique(x + 256 * hi, p, q + 2 * z, m);
  }

  // ---- inversion ----

  // The exponent after k + 1 squarings: 2^(k+1) less this amount.
  function Shortfall(k: nat): nat
  {
    if k < 250 then 1 else if k == 250 then 2 else if k == 251 then 3
    else if k == 252 then 6 else if k == 253 then 11 else 21
  }

  lemma {:induction false} PowBase(k: nat)
    ensures Pow(2, k + 1) > Shortfall(k)
  {
    if k >= 5 {
      PowAdd(2, 6, k - 5);
      PowPositive(2, k - 5);
      assert Pow(2, 6) == 64;
    } else {
      PowPositive(2, k);
    }
  }

  lemma SquareExponent(x: nat, e: nat)
    ensures FMul(Pow(x, e) % P, Pow(x, e) % P) == Pow(x, 2 * e) % P
  {
    PowAdd(x, e, e);
    ModMul(Pow(x, e), Pow(x, e), P);
  }

  lemma MultiplyExponent(x: nat, e: nat)
    ensures FMul(Pow(x, e) % P, x % P) == Pow(x, e + 1) % P
  {
    ModMul(Pow(x, e), x, P);
  }

  lemma InverseExponent()
    ensures Pow(2, 255) - 21 == P - 2
  {
    assert Pow(2, 15) == 32768;
    PowPow(2, 15, 17);
    assert Pow(32768, 4) == 0x1000_0000_0000_0000;
    PowAdd(32768, 4, 4);
    PowAdd(32768, 8, 8);
    PowAdd(32768, 1, 16);
    assert Pow(32768, 1) == 32768;
  }

  /** o = i^(2^255 - 21), by 254 squarings and all but two multiplications. */
  method Inv25519(o: Gf, i: Gf)
    requires o.Length == i.Length == 16 && Reduced(i[..])
    modifies o
    ensures Reduced(o[..])
    ensures Fe(o[..]) == Pow(Fe(old(i[..])), P - 2) % P
  {
    ghost var x: nat := Fe(i[..]);
    var c := new i64[16];
    CopyField(c, i);
    RaiseInPlace(c, i, x);
    CopyField(o, c);
  }

  method CopyField(o: Gf, a: Gf)
    requires o.Length == a.Length == 16
    modifies o
    ensures o[..] == old(a[..])
  {
    var n := 0;
    while n < 16
      invariant 0 <= n <= 16
      invariant forall k :: 0 <= k < n ==> o[k] == old(a[k])
      invariant forall k :: n <= k < 16 ==> a[k] == old(a[k])
    {
      o[n] := a[n];
      n := n + 1;
    }
  }

  lemma FieldRange(s: seq<int>)
    ensures 0 <= Fe(s) < P
  {
  }

  lemma ReducedWithin(s: seq<int>)
    requires Reduced(s)
    ensures Within(s, 0x400_0000)
  {
  }

  lemma FirstPower(x: nat)
    ensures Pow(x, 1) == x && Pow(2, 1) - Shortfall(0) == 1
  {
    assert Pow(x, 1) == x * Pow(x, 0);
  }

  lemma NextExponent(a: int)
    requires 0 <= a <= 253
    ensures Pow(2, 255 - a) - Shortfall(254 - a)
      == 2 * (Pow(2, 254 - a) - Shortfall(253 - a)) + (if a != 2 && a != 4 then 1 else 0)
  {
    assert Pow(2, 255 - a) == 2 * Pow(2, 254 - a);
  }

  lemma LastExponent()
    ensures Pow(2, 255) - Shortfall(254) == P - 2
  {
    InverseExponent();
  }

  // The loop of inv25519.
  method RaiseInPlace(c: Gf, i: Gf, ghost x: nat)
    requires c.Length == i.Length == 16 && c != i && Reduced(i[..]) && c[..] == i[..] && x == Fe(i[..])
    modifies c
    ensures Reduced(c[..]) && Fe(c[..]) == Pow(x, P - 2) % P
  {
    hide Reduced, Fe, Pow, FMul, Shortfall;
    FieldRange(i[..]);
    ModSmall(x, P);
    FirstPower(x);
    ghost var e: nat := 1;
    PowBase(0);
    var a := 253;
    while a >= 0
      invariant -1 <= a <= 253
      invariant e == Pow(2, 254 - a) - Shortfall(253 - a)
      invariant Reduced(c[..]) && Reduced(i[..]) && i[..] == old(i[..])
      invariant Fe(c[..]) == Pow(x, e) % P
    {
      ReducedWithin(c[..]);
      ReducedWithin(i[..]);
      SquareExponent(x, e);
      S(c, c);
      e := 2 * e;
      if a != 2 && a != 4 {
        ReducedWithin(c[..]);
        MultiplyExponent(x, e);
        M(c, c, i);
        e := e + 1;
      }
      PowBase(254 - a);
      NextExponent(a);
      a := a - 1;
    }
    LastExponent();
  }

  // ---- the ladder ----

  ghost predicate Distinct(a: Gf, b: Gf, c: Gf, d: Gf, e: Gf, f: Gf, x: Gf)
  {
    && a.Length == b.Length == c.Length == d.Length == e.Length == f.Length == x.Length == 16
    && a != b && a != c && a != d && a != e && a != f && a != x
    && b != c && b != d && b != e && b != f && b != x
    && c != d && c != e && c != f && c != x
    && d != e && d != f && d != x
    && e != f && e != x && f != x
  }

  // The impl keeps x2, x3, z2, z3 in a, b, c, d.
  ghost function Regs(a: Gf, b: Gf, c: Gf, d: Gf): Ladder
    reads a, b, c, d
  {
    Ladder(Fe(a[..]), Fe(c[..]), Fe(b[..]), Fe(d[..]))
  }

  ghost predicate AllReduced(a: Gf, b: Gf, c: Gf, d: Gf)
    reads a, b, c, d
  {
    Reduced(a[..]) && Reduced(b[..]) && Reduced(c[..]) && Reduced(d[..])
  }

  datatype Mid = Mid(aa: nat, bb: nat, sum: nat, diff2: nat)

  // The order in which the code forms the two cross products.
  function Mix(s: Ladder): Mid
  {
    var a, b := FAdd(s.x2, s.z2), FSub(s.x2, s.z2);
    var cb, da := FMul(FAdd(s.x3, s.z3), b), FMul(FSub(s.x3, s.z3), a);
    Mid(FMul(a, a), FMul(b, b), FAdd(cb, da), FMul(FSub(cb, da), FSub(cb, da)))
  }

  // The four sums and differences.
  method SumsAndDifferences(a: Gf, b: Gf, c: Gf, d: Gf, e: Gf)
    requires a.Length == b.Length == c.Length == d.Length == e.Length == 16
    requires a != b && a != c && a != d && a != e && b != c && b != d && b != e && c != d && c != e && d != e
    requires AllReduced(a, b, c, d)
    modifies a, b, c, e
    ensures Within(a[..], 0x4_0000) && Within(b[..], 0x4_0000) && Within(c[..], 0x4_0000) && Within(e[..], 0x4_0000)
    ensures Ladder(Fe(e[..]), Fe(a[..]), Fe(c[..]), Fe(b[..]))
         == var s := old(Regs(a, b, c, d));
            Ladder(FAdd(s.x2, s.z2), FSub(s.x2, s.z2), FAdd(s.x3, s.z3), FSub(s.x3, s.z3))
  {
    A(e, a, c);
    Z(a, a, c);
    A(c, b, d);
    Z(b, b, d);
  }

  // Sums and differences of reduced vectors, ready to be multiplied.
  method FirstHalf(a: Gf, b: Gf, c: Gf, d: Gf, e: Gf, f: Gf, x: Gf)
    requires Distinct(a, b, c, d, e, f, x) && AllReduced(a, b, c, d)
    modifies a, b, c, d, e, f
    ensures Reduced(b[..]) && Reduced(d[..]) && Reduced(f[..]) && Within(e[..], 0x400_0000)
    ensures Mid(Fe(d[..]), Fe(f[..]), Fe(e[..]), Fe(b[..])) == Mix(old(Regs(a, b, c, d)))
  {
    ghost var s := Regs(a, b, c, d);
    SumsAndDifferences(a, b, c, d, e);
    ghost var va, vb, vc, vd := FAdd(s.x2, s.z2), FSub(s.x2, s.z2), FAdd(s.x3, s.z3), FSub(s.x3, s.z3);
    assert Fe(e[..]) == va && Fe(a[..]) == vb && Fe(c[..]) == vc && Fe(b[..]) == vd;
    S(d, e);
    S(f, a);
    M(a, c, a);
    M(c, b, e);
    ghost var cb, da := FMul(vc, vb), FMul(vd, va);
    assert Fe(a[..]) == cb && Fe(c[..]) == da;
    A(e, a, c);
    Z(a, a, c);
    S(b, a);
  }

  // x2, z2, x3, z3 from the products of the first half.
  function Finish(x1: nat, m: Mid): Ladder
  {
    var e := FSub(m.aa, m.bb);
    Ladder(FMul(m.aa, m.bb), FMul(e, FAdd(FMul(e, 121665), m.aa)), FMul(m.sum, m.sum), FMul(m.diff2, x1))
  }

  method SecondHalf(a: Gf, b: Gf, c: Gf, d: Gf, e: Gf, f: Gf, x: Gf)
    requires Distinct(a, b, c, d, e, f, x) && Digits(x[..], 65536)
    requires Reduced(b[..]) && Reduced(d[..]) && Reduced(f[..]) && Within(e[..], 0x400_0000)
    modifies a, b, c, d, e, f
    ensures AllReduced(a, b, c, d)
    ensures Regs(a, b, c, d)
         == Finish(Fe(x[..]), old(Mid(Fe(d[..]), Fe(f[..]), Fe(e[..]), Fe(b[..]))))
  {
    ghost var m := Mid(Fe(d[..]), Fe(f[..]), Fe(e[..]), Fe(b[..]));
    var k := new i64[16](i => if i == 0 then 0xDB41 else if i == 1 then 1 else 0);
    A24(k[..]);
    Z(c, d, f);
    M(a, c, k);
    A(a, a, d);
    M(c, c, a);
    M(a, d, f);
    M(d, b, x);
    S(b, e);
  }

  lemma A24(k: seq<int>)
    requires |k| == 16 && k[0] == 0xDB41 && k[1] == 1 && forall i :: 2 <= i < 16 ==> k[i] == 0
    ensures Fe(k) == 121665
  {
    ValZeros(k[1..][1..], 65536);
    assert Val(k[1..], 65536) == k[1] + 65536 * Val(k[1..][1..], 65536);
  }

  lemma SquareOfNegation(x: int, y: int)
    ensures FMul(FSub(x, y), FSub(x, y)) == FMul(FSub(y, x), FSub(y, x))
  {
    ModMul(x - y, x - y, P);
    ModMul(y - x, y - x, P);
    assert (x - y) * (x - y) == (y - x) * (y - x);
  }

  lemma Commute(x: int, y: int)
    ensures FMul(x, y) == FMul(y, x) && FAdd(x, y) == FAdd(y, x)
  {
  }

  // The code's order of operations computes the step of the RFC.
  lemma StepIs(x1: nat, s: Ladder)
    ensures Finish(x1, Mix(s)) == Step(x1, s)
  {
    var a, b := FAdd(s.x2, s.z2), FSub(s.x2, s.z2);
    var cb, da := FMul(FAdd(s.x3, s.z3), b), FMul(FSub(s.x3, s.z3), a);
    var e := FSub(FMul(a, a), FMul(b, b));
    SquareOfNegation(cb, da);
    Commute(cb, da);
    Commute(x1, FMul(FSub(da, cb), FSub(da, cb)));
    Commute(e, 121665);
    Commute(FMul(a, a), FMul(e, 121665));
  }

  /** One iteration: both conditional swaps are made with the same bit. */
  method LadderStep(a: Gf, b: Gf, c: Gf, d: Gf, e: Gf, f: Gf, x: Gf, r: int)
    requires Distinct(a, b, c, d, e, f, x) && AllReduced(a, b, c, d) && Digits(x[..], 65536)
    requires 0 <= r <= 1
    modifies a, b, c, d, e, f
    ensures AllReduced(a, b, c, d)
    ensures Regs(a, b, c, d) == CSwap(r, Step(Fe(x[..]), CSwap(r, old(Regs(a, b, c, d)))))
  {
    Sel25519(a, b, r);
    Sel25519(c, d, r);
    ghost var s := Regs(a, b, c, d);
    FirstHalf(a, b, c, d, e, f, x);
    SecondHalf(a, b, c, d, e, f, x);
    StepIs(Fe(x[..]), s);
    Sel25519(a, b, r);
    Sel25519(c, d, r);
  }

  // Swapping before and after every step agrees with carrying the swap over to the next one.
  lemma DeferredSwap(s: Ladder, swap: int, r: int)
    requires 0 <= swap <= 1 && 0 <= r <= 1
    ensures CSwap(r, CSwap(swap, s)) == CSwap(if swap == r then 0 else 1, s)
  {
  }

  lemma {:induction false} PendingSwap(k: int, u: nat, t: nat)
    requires t <= 255
    ensures 0 <= RfcLadder(k, u, t).1 <= 1
  {
  }

  method BitAt(z: seq<byte>, i: nat) returns (r: int)
    requires i < 8 * |z|
    ensures r == ScalarBit(Le(z), i) && 0 <= r <= 1
  {
    ScalarBitOfBytes(z, i);
    r := ((z[i / 8] >> (i % 8)) & 1) as int;
  }

  // The registers after bit t, from the registers before it.
  lemma LadderNext(k: int, u: nat, t: nat)
    requires t < 255
    ensures var (s, swap) := RfcLadder(k, u, t + 1);
      var (s', swap') := RfcLadder(k, u, t);
      swap' == ScalarBit(k, t) && CSwap(swap', s') == CSwap(swap', Step(u, CSwap(swap', CSwap(swap, s))))
  {
    PendingSwap(k, u, t + 1);
    DeferredSwap(RfcLadder(k, u, t + 1).0, RfcLadder(k, u, t + 1).1, ScalarBit(k, t));
  }

  lemma LadderStart(k: int, u: nat)
    ensures CSwap(RfcLadder(k, u, 255).1, RfcLadder(k, u, 255).0) == Ladder(1, 0, u, 1)
  {
    hide Step, ScalarBit;
  }

  /** The 255 iterations, from the initial registers on. */
  method RunLadder(a: Gf, b: Gf, c: Gf, d: Gf, x: Gf, z: seq<byte>)
    requires a.Length == b.Length == c.Length == d.Length == x.Length == 16 && |z| == 32
    requires a != b && a != c && a != d && a != x && b != c && b != d && b != x && c != d && c != x && d != x
    requires AllReduced(a, b, c, d) && Digits(x[..], 65536)
    requires Regs(a, b, c, d) == Ladder(1, 0, Fe(x[..]), 1)
    modifies a, b, c, d
    ensures AllReduced(a, b, c, d)
    ensures Regs(a, b, c, d)
         == CSwap(RfcLadder(Le(z), Fe(x[..]), 0).1, RfcLadder(Le(z), Fe(x[..]), 0).0)
  {
    hide Step, CSwap, RfcLadder, ScalarBit, Fe, Le, Reduced, Pow;
    var e, f := new i64[16](i => 0), new i64[16](i => 0);
    ghost var k, u := Le(z), Fe(x[..]);
    LadderStart(k, u);
    var i := 254;
    while i >= 0
      invariant -1 <= i <= 254
      invariant Digits(x[..], 65536) && Fe(x[..]) == u
      invariant AllReduced(a, b, c, d)
      invariant Regs(a, b, c, d) == CSwap(RfcLadder(k, u, i + 1).1, RfcLadder(k, u, i + 1).0)
    {
      var r := BitAt(z, i);
      PendingSwap(k, u, i + 1);
      LadderStep(a, b, c, d, e, f, x, r);
      LadderNext(k, u, i);
      i := i - 1;
    }
  }

  /** q = X25519(n, p): crypto_scalarmult. */
  method CryptoScalarmult(q: array<byte>, n: seq<byte>, p: seq<byte>)
    requires q.Length == 32 && |n| == 32 && |p| == 32
    modifies q
    ensures Le(q[..]) == Rfc7748(Le(Clamp(n)), FieldBytes(p) % P)
  {
    var z := n[31 := (n[31] & 127) | 64];
    z := z[0 := z[0] & 248];
    assert z == Clamp(n);
    var x := new i64[16];
    Unpack25519(x, p);
    var a := new i64[16](i => if i == 0 then 1 else 0);
    var b := new i64[16](i requires 0 <= i < 16 reads x => x[i]);
    var c, d := new i64[16](i => 0), new i64[16](i => if i == 0 then 1 else 0);
    InitialRegs(a[..], b[..], c[..], d[..], x[..]);
    RunLadder(a, b, c, d, x, z);
    Affine(q, a, c);
  }

  /** q = a / c, with c inverted in place. */
  method Affine(q: array<byte>, a: Gf, c: Gf)
    requires q.Length == 32 && a.Length == c.Length == 16 && a != c
    requires Reduced(a[..]) && Reduced(c[..])
    modifies q, a, c
    ensures Le(q[..]) == FMul(old(Fe(a[..])), Pow(old(Fe(c[..])), P - 2) % P)
  {
    Inv25519(c, c);
    M(a, a, c);
    Pack25519(q, a);
  }

  lemma InitialRegs(a: seq<int>, b: seq<int>, c: seq<int>, d: seq<int>, x: seq<int>)
    requires |a| == |b| == |c| == |d| == |x| == 16
    requires Digits(x, 65536) && b == x
    requires a[0] == 1 && d == a && c[0] == 0
    requires forall i :: 1 <= i < 16 ==> a[i] == 0 && c[i] == 0
    ensures Reduced(a) && Reduced(b) && Reduced(c) && Reduced(d)
    ensures Fe(a) == 1 && Fe(d) == 1 && Fe(c) == 0 && Fe(b) == Fe(x)
  {
    ValZeros(a[1..], 65536);
    ValZeros(c[1..], 65536);
  }
}
