/** Counting: finite injections into a range of the same size hit every value. */
module Pigeonhole {

  ghost function Range(a: int, b: int): (s: set<int>)
    ensures forall v :: v in s <==> a <= v < b
    decreases b - a
  {
    if b <= a then {} else Range(a, b - 1) + {b - 1}
  }

  lemma {:induction false} RangeSize(a: int, b: int)
    requires a <= b
    ensures |Range(a, b)| == b - a
    decreases b - a
  {
    if a < b {
      RangeSize(a, b - 1);
    }
  }

  ghost predicate Distinct<T>(f: seq<T>)
  {
    forall i, j :: 0 <= i < j < |f| ==> f[i] != f[j]
  }

  function Elements<T>(f: seq<T>): set<T>
  {
    set v | v in f
  }

  lemma {:induction false} DistinctSize<T>(f: seq<T>)
    requires Distinct(f)
    ensures |Elements(f)| == |f|
  {
    if f == [] {
      assert Elements(f) == {};
    } else {
      var g := f[..|f| - 1];
      DistinctSize(g);
      assert f == g + [f[|f| - 1]];
      assert Elements(f) == Elements(g) + {f[|f| - 1]};
    }
  }

  lemma SubsetSize<T>(s: set<T>, t: set<T>)
    requires s <= t
    ensures |s| <= |t|
    ensures |s| == |t| ==> s == t
  {
    assert t == s + (t - s);
  }

  // As many distinct values as the range has: every one is taken.
  lemma AllTaken(f: seq<int>, a: int, v: int)
    requires Distinct(f) && forall i :: 0 <= i < |f| ==> a <= f[i] < a + |f|
    requires a <= v < a + |f|
    ensures v in f
  {
    DistinctSize(f);
    RangeSize(a, a + |f|);
    SubsetSize(Elements(f), Range(a, a + |f|));
    assert v in Range(a, a + |f|);
  }

  // Distinct values in a range are no more than the range.
  lemma AtMost(f: seq<int>, a: int, b: int)
    requires a <= b && Distinct(f) && forall i :: 0 <= i < |f| ==> a <= f[i] < b
    ensures |f| <= b - a
  {
    DistinctSize(f);
    RangeSize(a, b);
    SubsetSize(Elements(f), Range(a, b));
  }
}
