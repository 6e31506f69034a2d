/** Field arithmetic modulo 2^255 - 19 on sixteen signed base-65536 limbs:
    car25519, A, Z, M and S of tweetnacl.c. */
module Field25519 {
  import opened Arith
  import opened Limbs

  // C's long long. Every value stored in one is checked to fit.
  type i64 = x: int | -0x8000_0000_0000_0000 <= x < 0x8000_0000_0000_0000

  const P: int := 0x7fff_ffff_ffff_ffff_ffff_ffff_ffff_ffff_ffff_ffff_ffff_ffff_ffff_ffff_ffff_ffed
  const R256: int := 0x1_0000_0000_0000_0000_0000_0000_0000_0000_0000_0000_0000_0000_0000_0000_0000_0000

  type Gf = array<i64>

  ghost function V(s: seq<int>): int { Val(s, 65536) }

  // The field element a limb vector stands for.
  ghost function Fe(s: seq<int>): (r: int)
    ensures 0 <= r < P
  {
    V(s) % P
  }

  function FAdd(x: int, y: int): nat { (x + y) % P }
  function FSub(x: int, y: int): nat { (x - y) % P }
  function FMul(x: int, y: int): nat { (x * y) % P }

  // What a multiplication leaves behind.
  ghost predicate Reduced(s: seq<int>)
  {
    |s| == 16 && -38 <= s[0] <= 65573 && forall i :: 1 <= i < 16 ==> 0 <= s[i] < 65536
  }

  lemma PowersOf65536()
    ensures Pow(65536, 16) == R256
    ensures Pow(65536, 15) * 65536 == R256
  {
    assert Pow(65536, 4) == 0x1_0000_0000_0000_0000;
    PowAdd(65536, 4, 4);
    PowAdd(65536, 8, 8);
  }

  /** One carry pass: the base-65536 digits of the value modulo 2^256, with the
      part above 2^256 folded back into limb 0 (2^256 = 38 mod p). */
  ghost function Carry(s: seq<int>): seq<int>
    requires |s| == 16
  {
    var d, q := ToDigits(V(s) % R256, 65536, 16), V(s) / R256;
    d[0 := d[0] + 38 * q]
  }

  lemma CarryIs(s: seq<int>, t: seq<int>, q: int)
    requires |s| == |t| == 16
    requires V(t) == V(s) - q * (R256 - 38)
    requires 0 <= t[0] - 38 * q < 65536
    requires forall k :: 1 <= k < 16 ==> 0 <= t[k] < 65536
    ensures t == Carry(s) && q == V(s) / R256
  {
    var d := t[0 := t[0] - 38 * q];
    ValUpdate(t, 65536, 0, t[0] - 38 * q);
    DigitsBound(d, 65536);
    PowersOf65536();
    DivModUnique(V(s), R256, q, V(d));
    ToDigitsValue(V(d), 65536, 16);
    DigitsInjective(d, ToDigits(V(d), 65536, 16), 65536);
    assert t == d[0 := d[0] + 38 * q];
  }

  lemma CarryValue(s: seq<int>)
    requires |s| == 16
    ensures V(Carry(s)) == V(s) - V(s) / R256 * (R256 - 38)
    ensures Fe(Carry(s)) == Fe(s)
  {
    var d, q := ToDigits(V(s) % R256, 65536, 16), V(s) / R256;
    PowersOf65536();
    ToDigitsValue(V(s) % R256, 65536, 16);
    ValUpdate(d, 65536, 0, d[0] + 38 * q);
    assert V(s) == q * R256 + V(s) % R256;
    ModAddMultiple(V(s), -2 * q, P);
  }

  lemma PropagateValue(s: seq<int>, i: nat, e: int)
    requires |s| == 16 && i < 15
    ensures V(s[i + 1 := s[i + 1] + e][i := s[i] - 65536 * e]) == V(s)
  {
    var s1 := s[i + 1 := s[i + 1] + e];
    ValUpdate(s, 65536, i + 1, s[i + 1] + e);
    ValUpdate(s1, 65536, i, s[i] - 65536 * e);
    var p := Pow(65536, i);
    assert e * (65536 * p) == (65536 * e) * p;
  }

  lemma WrapValue(s: seq<int>, e: int)
    requires |s| == 16
    ensures V(s[0 := s[0] + 38 * e][15 := s[15] - 65536 * e]) == V(s) - e * (R256 - 38)
  {
    var s1 := s[0 := s[0] + 38 * e];
    ValUpdate(s, 65536, 0, s[0] + 38 * e);
    ValUpdate(s1, 65536, 15, s[15] - 65536 * e);
    PowersOf65536();
    var p := Pow(65536, 15);
    assert (-65536 * e) * p == -e * (p * 65536);
  }

  method Car25519(o: Gf)
    requires o.Length == 16 && Within(o[..], 0x4000_0000_0000_0000)
    modifies o
    ensures o[..] == Carry(old(o[..]))
  {
    ghost var was: seq<int> := o[..];
    ghost var q := 0;
    var i := 0;
    while i < 16
      invariant 0 <= i <= 16
      invariant i < 16 ==> q == 0
      invariant V(o[..]) == V(was) - q * (R256 - 38)
      invariant forall k :: 1 <= k < i ==> 0 <= o[k] < 65536
      invariant i > 0 ==> 0 <= o[0] - 38 * q < 65536
      invariant forall k :: i < k < 16 ==> o[k] == was[k]
      invariant i < 16 ==> -0x8000_0000_0000 <= o[i] - was[i] <= 0x8000_0000_0000
    {
      ghost var s := o[..];
      o[i] := o[i] + 65536;
      var c: i64 := o[i] / 65536;
      var j := if i < 15 then i + 1 else 0;
      var w: i64 := 37 * (c - 1) * (if i == 15 then 1 else 0);
      o[j] := o[j] + (c - 1 + w);
      o[i] := o[i] - c * 65536;
      if i < 15 {
        assert o[..] == s[i + 1 := s[i + 1] + (c - 1)][i := s[i] - 65536 * (c - 1)];
        PropagateValue(s, i, c - 1);
      } else {
        assert o[..] == s[0 := s[0] + 38 * (c - 1)][15 := s[15] - 65536 * (c - 1)];
        WrapValue(s, c - 1);
        q := c - 1;
      }
      i := i + 1;
    }
    CarryIs(was, o[..], q);
  }

  // A pass over limbs of magnitude 2^62 leaves a large carry only in limb 0.
  lemma CarryOnce(s: seq<int>)
    requires |s| == 16 && Within(s, 0x4000_0000_0000_0000)
    ensures -0x8000_0000_0000 <= V(s) / R256 <= 0x8000_0000_0000
    ensures Within(Carry(s), 0x4000_0000_0000_0000)
    ensures -0x100_0000_0000_0000 <= V(Carry(s)) <= R256 + 0x100_0000_0000_0000
  {
    CarryValue(s);
    PowersOf65536();
    WithinBound(s, 65536, 0x4000_0000_0000_0000);
  }

  lemma CarrySmall(s: seq<int>)
    requires |s| == 16 && -R256 <= V(s) < 2 * R256
    ensures Reduced(Carry(s)) && -1 <= V(s) / R256 <= 1
  {
    var d, q := ToDigits(V(s) % R256, 65536, 16), V(s) / R256;
    assert -1 <= q <= 1;
    assert 0 <= d[0] < 65536;
  }

  // Two carry passes bring limbs of magnitude 2^62 into the reduced range.
  lemma CarryTwiceReduced(s: seq<int>)
    requires |s| == 16 && Within(s, 0x4000_0000_0000_0000)
    ensures Within(Carry(s), 0x4000_0000_0000_0000)
    ensures Reduced(Carry(Carry(s)))
    ensures Fe(Carry(Carry(s))) == Fe(s)
  {
    CarryOnce(s);
    CarrySmall(Carry(s));
    CarryValue(s);
    CarryValue(Carry(s));
  }

  // ---- A, Z: limbwise sum and difference; the output may be an input ----

  method A(o: Gf, a: Gf, b: Gf)
    requires o.Length == a.Length == b.Length == 16
    requires Within(a[..], 0x400_0000) && Within(b[..], 0x400_0000)
    modifies o
    ensures forall k :: 0 <= k < 16 ==> o[k] == old(a[k]) + old(b[k])
    ensures Fe(o[..]) == FAdd(Fe(old(a[..])), Fe(old(b[..])))
  {
    var i := 0;
    while i < 16
      invariant 0 <= i <= 16
      invariant forall k :: 0 <= k < i ==> o[k] == old(a[k]) + old(b[k])
      invariant forall k :: i <= k < 16 ==> a[k] == old(a[k]) && b[k] == old(b[k])
    {
      o[i] := a[i] + b[i];
      i := i + 1;
    }
    ValSum(old(a[..]), old(b[..]), o[..], 65536, 1);
    ModAdd(V(old(a[..])), V(old(b[..])), P);
  }

  method Z(o: Gf, a: Gf, b: Gf)
    requires o.Length == a.Length == b.Length == 16
    requires Within(a[..], 0x400_0000) && Within(b[..], 0x400_0000)
    modifies o
    ensures forall k :: 0 <= k < 16 ==> o[k] == old(a[k]) - old(b[k])
    ensures Fe(o[..]) == FSub(Fe(old(a[..])), Fe(old(b[..])))
  {
    var i := 0;
    while i < 16
      invariant 0 <= i <= 16
      invariant forall k :: 0 <= k < i ==> o[k] == old(a[k]) - old(b[k])
      invariant forall k :: i <= k < 16 ==> a[k] == old(a[k]) && b[k] == old(b[k])
    {
      o[i] := a[i] - b[i];
      i := i + 1;
    }
    ValSum(old(a[..]), old(b[..]), o[..], 65536, -1);
    ModSub(V(old(a[..])), V(old(b[..])), P);
  }

  // ---- M: schoolbook product, fold by 38, two carry passes ----

  lemma ProductBound(x: int, y: int)
    requires -0x400_0000 <= x <= 0x400_0000 && -0x400_0000 <= y <= 0x400_0000
    ensures -0x10_0000_0000_0000 <= x * y <= 0x10_0000_0000_0000
  {
    if x >= 0 {
      MulMono(x, y, 0x400_0000);
      MulMono(x, -0x400_0000, y);
    } else {
      MulMono(-x, y, 0x400_0000);
      MulMono(-x, -0x400_0000, y);
      assert -x * y == -(x * y);
    }
  }

  method Convolve(t: array<i64>, a: Gf, b: Gf)
    requires t.Length == 31 && a.Length == b.Length == 16 && t != a && t != b
    requires Within(a[..], 0x400_0000) && Within(b[..], 0x400_0000)
    requires forall k :: 0 <= k < 31 ==> t[k] == 0
    modifies t
    ensures V(t[..]) == V(a[..]) * V(b[..])
    ensures Within(t[..], 0x100_0000_0000_0000)
  {
    ghost var sa: seq<int>, sb: seq<int> := a[..], b[..];
    ValZeros(t[..], 65536);
    var i := 0;
    while i < 16
      invariant 0 <= i <= 16
      invariant V(t[..]) == V(sa[..i]) * V(sb)
      invariant Within(t[..], i * 0x10_0000_0000_0000)
    {
      RowDone(sa, sb, 65536, i);
      var j := 0;
      while j < 16
        invariant 0 <= j <= 16
        invariant V(t[..]) == V(sa[..i]) * V(sb) + sa[i] * Pow(65536, i) * V(sb[..j])
        invariant forall k :: 0 <= k < 31 ==>
          -(i + 1) * 0x10_0000_0000_0000 <= t[k] <= (i + 1) * 0x10_0000_0000_0000
        invariant forall k :: i + j <= k < 31 ==>
          -i * 0x10_0000_0000_0000 <= t[k] <= i * 0x10_0000_0000_0000
      {
        AccumulateValue(t[..], sa, sb, 65536, i, j, 0);
        ProductBound(sa[i], sb[j]);
        ghost var s: seq<int> := t[..];
        t[i + j] := t[i + j] + a[i] * b[j];
        assert t[..] == s[i + j := s[i + j] + sa[i] * sb[j]];
        j := j + 1;
      }
      i := i + 1;
    }
    assert sa[..16] == sa;
  }

  lemma FoldValue(s: seq<int>, t: seq<int>)
    requires |s| == |t| == 31
    requires forall k :: 0 <= k < 15 ==> t[k] == s[k] + 38 * s[k + 16]
    requires t[15] == s[15]
    ensures Fe(t[..16]) == Fe(s)
  {
    var lo, hi := s[..16], s[16..] + [0];
    assert s == lo + s[16..];
    ValConcat(lo, s[16..], 65536);
    ValAppend(s[16..], 65536, 0);
    PowersOf65536();
    ValSum(lo, hi, t[..16], 65536, 38);
    var h := V(hi);
    assert V(s) == V(t[..16]) + 2 * h * P;
    ModAddMultiple(V(t[..16]), 2 * h, P);
  }

  method FoldInto(o: Gf, t: array<i64>)
    requires o.Length == 16 && t.Length == 31 && o != t
    requires Within(t[..], 0x100_0000_0000_0000)
    modifies o, t
    ensures Fe(o[..]) == Fe(old(t[..])) && Within(o[..], 0x4000_0000_0000_0000)
  {
    var i := 0;
    while i < 15
      invariant 0 <= i <= 15
      invariant forall k :: 0 <= k < i ==> t[k] == old(t[k]) + 38 * old(t[k + 16])
      invariant forall k :: i <= k < 31 ==> t[k] == old(t[k])
    {
      t[i] := t[i] + 38 * t[i + 16];
      i := i + 1;
    }
    FoldValue(old(t[..]), t[..]);
    i := 0;
    while i < 16
      invariant 0 <= i <= 16
      invariant forall k :: 0 <= k < i ==> o[k] == t[k]
      invariant forall k :: 0 <= k < 15 ==> t[k] == old(t[k]) + 38 * old(t[k + 16])
      invariant t[15] == old(t[15])
      invariant Fe(t[..16]) == Fe(old(t[..]))
    {
      o[i] := t[i];
      i := i + 1;
    }
    assert o[..] == t[..16];
  }

  method M(o: Gf, a: Gf, b: Gf)
    requires o.Length == a.Length == b.Length == 16
    requires Within(a[..], 0x400_0000) && Within(b[..], 0x400_0000)
    modifies o
    ensures Reduced(o[..])
    ensures Fe(o[..]) == FMul(Fe(old(a[..])), Fe(old(b[..])))
  {
    var t := new i64[31](i => 0);
    Convolve(t, a, b);
    ModMul(V(a[..]), V(b[..]), P);
    FoldInto(o, t);
    CarryTwiceReduced(o[..]);
    Car25519(o);
    Car25519(o);
  }

  method S(o: Gf, a: Gf)
    requires o.Length == a.Length == 16 && Within(a[..], 0x400_0000)
    modifies o
    ensures Reduced(o[..])
    ensures Fe(o[..]) == FMul(Fe(old(a[..])), Fe(old(a[..])))
  {
    M(o, a, a);
  }
}
