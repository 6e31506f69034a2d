/** Constant-time select and the 32-byte form of field elements:
    sel25519, pack25519, unpack25519, neq25519 and par25519 of tweetnacl.c. */
module FieldCodec {
  import opened Arith
  import opened Limbs
  import opened Bits
  import opened Field25519

  /** Swap p and q when b is 1, keep them when b is 0, by masked exclusive-or. */
  method Sel25519(p: Gf, q: Gf, b: int)
    requires p.Length == q.Length == 16 && p != q && 0 <= b <= 1
    modifies p, q
    ensures p[..] == if b == 1 then old(q[..]) else old(p[..])
    ensures q[..] == if b == 1 then old(p[..]) else old(q[..])
  {
    var c := Not(b - 1);
    var i := 0;
    while i < 16
      invariant 0 <= i <= 16
      invariant forall k :: 0 <= k < i ==> p[k] == if b == 1 then old(q[k]) else old(p[k])
      invariant forall k :: 0 <= k < i ==> q[k] == if b == 1 then old(p[k]) else old(q[k])
      invariant forall k :: i <= k < 16 ==> p[k] == old(p[k]) && q[k] == old(q[k])
    {
      SelectLimb(p[i], q[i], b);
      var t: i64 := And(c, Xor(p[i], q[i]));
      p[i] := Xor(p[i], t);
      q[i] := Xor(q[i], t);
      i := i + 1;
    }
  }

  lemma SelectLimb(x: i64, y: i64, b: int)
    requires 0 <= b <= 1
    ensures -0x8000_0000_0000_0000 <= And(Not(b - 1), Xor(x, y)) < 0x8000_0000_0000_0000
    ensures Xor(x, And(Not(b - 1), Xor(x, y))) == if b == 1 then y else x
    ensures Xor(y, And(Not(b - 1), Xor(x, y))) == if b == 1 then x else y
  {
    XorCancel(x, y);
    XorZero(x);
    XorZero(y);
    AndZero(Xor(x, y));
    AndOnes(Xor(x, y));
    Pow2At63();
    XorRange(x, y, 63);
  }

  lemma Pow2At63()
    ensures Pow(2, 63) == 0x8000_0000_0000_0000
  {
    assert Pow(2, 9) == 512;
    PowPow(2, 9, 7);
  }

  // ---- the trial subtraction of p ----

  lemma BorrowStep(t: seq<int>, m: seq<int>, m': seq<int>, i: nat)
    requires |t| == |m| == |m'| == 16 && 1 <= i < 16
    requires V(m[..i]) == V(t[..i]) - (Pow(65536, i) - 19)
    requires forall k :: 0 <= k < i - 1 ==> m'[k] == m[k]
    requires var borrow := m[i - 1] / 65536 % 2;
      m'[i - 1] == m[i - 1] + 65536 * borrow && m'[i] == t[i] - (if i < 15 then 0xffff else 0x7fff) - borrow
    ensures V(m'[..i + 1]) == V(t[..i + 1]) - ((if i < 15 then 65536 else 32768) * Pow(65536, i) - 19)
  {
    var p := Pow(65536, i - 1);
    assert Pow(65536, i) == 65536 * p;
    ValPrefixStep(m, 65536, i - 1);
    ValPrefixStep(m', 65536, i - 1);
    ValPrefixStep(m', 65536, i);
    ValPrefixStep(t, 65536, i);
    assert m[..i - 1] == m'[..i - 1];
    var borrow := m[i - 1] / 65536 % 2;
    BorrowTerms(m[i - 1], t[i], borrow, if i < 15 then 0xffff else 0x7fff, p);
  }

  lemma BorrowTerms(x: int, y: int, borrow: int, c: int, p: int)
    ensures (x + 65536 * borrow) * p + (y - c - borrow) * (65536 * p) == x * p + y * (65536 * p) - c * (65536 * p)
  {
    assert (x + 65536 * borrow) * p == x * p + borrow * (65536 * p);
    assert (y - c - borrow) * (65536 * p) == y * (65536 * p) - c * (65536 * p) - borrow * (65536 * p);
  }

  // The top limb tells the sign.
  lemma TopLimbSign(m: seq<int>)
    requires |m| == 16 && Digits(m[..15], 65536)
    ensures m[15] < 0 <==> V(m) < 0
  {
    hide Val, Pow;
    ValPrefixStep(m, 65536, 15);
    assert m[..16] == m;
    DigitsBound(m[..15], 65536);
    var p := Pow(65536, 15);
    if m[15] < 0 {
      MulMono(p, m[15], -1);
    } else {
      MulMono(p, 0, m[15]);
    }
  }

  lemma Radix()
    ensures 32768 * Pow(65536, 15) - 19 == P
  {
    PowersOf65536();
  }

  // Column i of the difference t - p takes the borrow out of column i - 1.
  method BorrowColumn(t: Gf, m: Gf, i: nat)
    requires t.Length == m.Length == 16 && t != m && 1 <= i < 16
    requires 0 <= t[i] < 65536 && -65536 <= m[i - 1] < 65536
    requires V(m[..i]) == V(t[..i]) - (Pow(65536, i) - 19)
    modifies m
    ensures forall k :: 0 <= k < i - 1 ==> m[k] == old(m[k])
    ensures 0 <= m[i - 1] < 65536
    ensures if i < 15 then -65536 <= m[i] < 65536 else -0x8000 <= m[i] <= 0x8000
    ensures V(m[..i + 1]) == V(t[..i + 1]) - ((if i < 15 then 65536 else 32768) * Pow(65536, i) - 19)
  {
    m[i] := t[i] - (if i < 15 then 0xffff else 0x7fff) - (m[i - 1] / 65536) % 2;
    m[i - 1] := m[i - 1] % 65536;
    BorrowStep(t[..], old(m[..]), m[..], i);
    assert t[..][..i] == t[..i] && t[..][..i + 1] == t[..i + 1];
    assert m[..][..i + 1] == m[..i + 1] && old(m[..])[..i] == old(m[..i]);
  }

  lemma OneLimb(x: int)
    ensures V([x]) == x && Pow(65536, 1) == 65536
  {
    assert [x][1..] == [];
    assert V([x]) == x + 65536 * V([]);
    assert Pow(65536, 1) == 65536 * Pow(65536, 0);
  }

  lemma NextLimb(i: nat)
    ensures Pow(65536, i + 1) == 65536 * Pow(65536, i)
  {
  }

  /** The trial difference m = t - p with its borrow chain; only the top limb can be negative. */
  method Subtract(t: Gf, m: Gf)
    requires t.Length == m.Length == 16 && t != m
    requires Digits(t[..], 65536)
    modifies m
    ensures V(m[..]) == V(t[..]) - P
    ensures forall k :: 0 <= k < 15 ==> 0 <= m[k] < 65536
    ensures -0x8000 <= m[15] <= 0x8000
  {
    hide Val, Pow;
    m[0] := t[0] - 0xffed;
    assert m[..1] == [m[0]] && t[..1] == [t[0]];
    OneLimb(m[0]);
    OneLimb(t[0]);
    var i := 1;
    while i < 16
      invariant 1 <= i <= 16
      invariant i < 16 ==> V(m[..i]) == V(t[..i]) - (Pow(65536, i) - 19)
      invariant forall k :: 0 <= k < i - 1 ==> 0 <= m[k] < 65536
      invariant if i < 16 then -65536 <= m[i - 1] < 65536 else -0x8000 <= m[15] <= 0x8000
      invariant i == 16 ==> V(m[..16]) == V(t[..16]) - (32768 * Pow(65536, 15) - 19)
    {
      BorrowColumn(t, m, i);
      NextLimb(i);
      i := i + 1;
    }
    assert m[..16] == m[..] && t[..16] == t[..];
    Radix();
  }

  /** One round of the final reduction: subtract p unless the result would be negative. */
  method TrySubtract(t: Gf, m: Gf)
    requires t.Length == m.Length == 16 && t != m
    requires Digits(t[..], 65536)
    modifies t, m
    ensures Digits(t[..], 65536)
    ensures V(t[..]) == if V(old(t[..])) >= P then V(old(t[..])) - P else V(old(t[..]))
  {
    Subtract(t, m);
    TopLimbSign(m[..]);
    var b := (m[15] / 65536) % 2;
    assert b == if m[15] < 0 then 1 else 0;
    Sel25519(t, m, 1 - b);
  }

  // ---- packing ----

  // A third carry pass turns a reduced vector into sixteen digits.
  lemma CarryThird(s: seq<int>)
    requires Reduced(s)
    ensures Digits(Carry(s), 65536)
  {
    DigitsBound(s[1..], 65536);
    PowersOf65536();
    var v, q := V(s), V(s) / R256;
    assert -38 <= v <= R256 + 37;
    assert v == q * R256 + v % R256;
    LowDigits(v % R256);
    if v < 0 {
      assert q == -1;
    } else if v >= R256 {
      assert q == 1;
    } else {
      assert q == 0;
    }
  }

  // Just above 0 or just below 2^256, limb 0 has room for the 38 that is folded in.
  lemma LowDigits(x: int)
    requires 0 <= x < R256
    ensures ToDigits(x, 65536, 16)[0] == x % 65536
    ensures x <= 65573 - 38 ==> x % 65536 == x
    ensures x >= R256 - 38 ==> x % 65536 >= 65536 - 38
  {
    assert Pow(65536, 0) == 1;
  }

  // Three carry passes: the digits of some number below 2^256 that is congruent to the input.
  method CarryThrice(t: Gf)
    requires t.Length == 16 && Within(t[..], 0x4000_0000_0000_0000)
    modifies t
    ensures Digits(t[..], 65536) && 0 <= V(t[..]) < R256
    ensures Fe(t[..]) == Fe(old(t[..]))
  {
    CarryTwiceReduced(t[..]);
    Car25519(t);
    Car25519(t);
    CarryThird(t[..]);
    CarryValue(t[..]);
    Car25519(t);
    DigitsBound(t[..], 65536);
    PowersOf65536();
  }

  method Pack25519(o: array<byte>, n: Gf)
    requires o.Length == 32 && n.Length == 16 && Within(n[..], 0x4000_0000_0000_0000)
    modifies o
    ensures Le(o[..]) == Fe(n[..])
  {
    ghost var was: seq<int> := n[..];
    var m, t := new i64[16], new i64[16];
    var i := 0;
    while i < 16
      invariant 0 <= i <= 16
      invariant forall k :: 0 <= k < i ==> t[k] == n[k]
    {
      t[i] := n[i];
      i := i + 1;
    }
    assert t[..] == was;
    CarryThrice(t);
    var j := 0;
    while j < 2
      invariant 0 <= j <= 2
      invariant Digits(t[..], 65536)
      invariant 0 <= V(t[..]) < (if j == 0 then R256 else if j == 1 then P + 38 else P)
      invariant Fe(t[..]) == Fe(was)
    {
      Canonical(V(t[..]));
      TrySubtract(t, m);
      j := j + 1;
    }
    ModSmall(V(t[..]), P);
    WriteLimbs(o, t);
  }

  lemma Canonical(x: int)
    ensures (x - P) % P == x % P
  {
    ModAddMultiple(x, -1, P);
  }

  method WriteLimbs(o: array<byte>, t: Gf)
    requires o.Length == 32 && t.Length == 16 && Digits(t[..], 65536)
    modifies o
    ensures Le(o[..]) == V(t[..])
  {
    var i := 0;
    while i < 16
      invariant 0 <= i <= 16
      invariant forall k :: 0 <= k < i ==> o[2 * k] as int == t[k] % 256 && o[2 * k + 1] as int == t[k] / 256
    {
      ByteOfInt(t[i] % 256);
      ByteOfInt(t[i] / 256);
      o[2 * i] := (t[i] % 256) as byte;
      o[2 * i + 1] := (t[i] / 256) as byte;
      i := i + 1;
    }
    PairsValue(t[..], Ints(o[..]));
  }

  // ---- unpacking ----

  // The number a 32-byte string encodes: bit 255 is ignored.
  ghost function FieldBytes(s: seq<byte>): int {
    Le(s) % 0x8000_0000_0000_0000_0000_0000_0000_0000_0000_0000_0000_0000_0000_0000_0000_0000
  }

  method Unpack25519(o: Gf, n: seq<byte>)
    requires o.Length == 16 && |n| == 32
    modifies o
    ensures Digits(o[..], 65536)
    ensures V(o[..]) == FieldBytes(n)
  {
    var i := 0;
    while i < 16
      invariant 0 <= i <= 16
      invariant forall k :: 0 <= k < i ==> o[k] == n[2 * k] as int + 256 * n[2 * k + 1] as int
    {
      o[i] := n[2 * i] as int + 256 * n[2 * i + 1] as int;
      i := i + 1;
    }
    PairsValue(o[..], Ints(n));
    ghost var s: seq<int> := o[..];
    o[15] := o[15] % 0x8000;
    ClearTop(s);
    assert o[..] == s[15 := s[15] % 0x8000];
  }

  lemma ClearTop(s: seq<int>)
    requires |s| == 16 && Digits(s, 65536)
    ensures V(s[15 := s[15] % 0x8000])
         == V(s) % 0x8000_0000_0000_0000_0000_0000_0000_0000_0000_0000_0000_0000_0000_0000_0000_0000
  {
    hide Val, Pow;
    var t := s[15 := s[15] % 0x8000];
    ValPrefixStep(s, 65536, 15);
    ValPrefixStep(t, 65536, 15);
    assert t[..16] == t && s[..16] == s && t[..15] == s[..15];
    PowersOf65536();
    DigitsBound(t[..15], 65536);
    CutTop(V(s[..15]), s[15], Pow(65536, 15));
  }

  lemma CutTop(low: int, top: int, p: int)
    requires 0 <= low < p && p * 65536 == R256
    ensures (low + top * p) % 0x8000_0000_0000_0000_0000_0000_0000_0000_0000_0000_0000_0000_0000_0000_0000_0000
      == low + top % 0x8000 * p
  {
    var q, r := top / 0x8000, top % 0x8000;
    assert 0x8000 * p == 0x8000_0000_0000_0000_0000_0000_0000_0000_0000_0000_0000_0000_0000_0000_0000_0000;
    MulMono(p, r, 0x7fff);
    assert low + top * p == q * (0x8000 * p) + (low + r * p);
    DivModUnique(low + top * p, 0x8000 * p, q, low + r * p);
  }

  // ---- comparison and parity ----

  /** Packing is a canonical form: the same 32 bytes exactly for the same field element, and unpacking
      them gives back its representative below P. */
  lemma PackedForm(a: seq<int>, b: seq<int>, s: seq<byte>, t: seq<byte>, u: seq<int>)
    requires |s| == |t| == 32 && Le(s) == Fe(a) && Le(t) == Fe(b)
    requires V(u) == FieldBytes(s)
    ensures s == t <==> Fe(a) == Fe(b)
    ensures V(u) == Fe(a) && Fe(u) == Fe(a)
  {
    if Fe(a) == Fe(b) {
      LeInjective(s, t);
    }
  }

  /** 0 exactly when the two limb vectors stand for the same field element. */
  method Neq25519(a: Gf, b: Gf) returns (r: int)
    requires a.Length == b.Length == 16
    requires Within(a[..], 0x4000_0000_0000_0000) && Within(b[..], 0x4000_0000_0000_0000)
    ensures r == if Fe(a[..]) == Fe(b[..]) then 0 else -1
  {
    var c, d := new byte[32], new byte[32];
    Pack25519(c, a);
    Pack25519(d, b);
    if Le(c[..]) == Le(d[..]) {
      LeInjective(c[..], d[..]);
    }
    r := Vn(c[..], d[..]);
  }

  method Par25519(a: Gf) returns (r: int)
    requires a.Length == 16 && Within(a[..], 0x4000_0000_0000_0000)
    ensures r == Fe(a[..]) % 2
  {
    var d := new byte[32];
    Pack25519(d, a);
    LowBit(d[..]);
    r := (d[0] & 1) as int;
  }

  lemma LowBit(s: seq<byte>)
    requires s != []
    ensures (s[0] & 1) as int == Le(s) % 2
  {
    ByteParity(s[0]);
    EvenTail(s[0] as int, Val(Ints(s)[1..], 256));
  }

  lemma EvenTail(x: int, v: int)
    ensures (x + 256 * v) % 2 == x % 2
  {
  }

  lemma ByteParity(b: byte)
    ensures (b & 1) as int == (b as int) % 2
  {
  }
}
