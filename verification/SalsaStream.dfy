/** core of tweetnacl.c, as crypto_core_salsa20 and crypto_core_hsalsa20. */
module SalsaStream {
  import opened Arith
  import opened Limbs
  import opened Bits
  import opened Salsa20

  // ---- the Salsa20 and HSalsa20 functions on bytes ----

  ghost function Word(s: seq<byte>, i: nat): (w: int)
    requires 4 * i + 4 <= |s|
    ensures 0 <= w < M32
  {
    assert Pow(256, 4) == M32;
    LeBound(s[4 * i..4 * i + 4]);
    Le(s[4 * i..4 * i + 4])
  }

  ghost function WordBytes(ws: seq<int>): (s: seq<byte>)
    requires forall i :: 0 <= i < |ws| ==> ws[i] >= 0
    ensures |s| == 4 * |ws|
  {
    seq(4 * |ws|, i requires 0 <= i < 4 * |ws| => LeBytes(ws[i / 4], 4)[i % 4])
  }

  // Sixteen words: the constant on the diagonal, four key words, the input, four key words.
  ghost function LayoutWord(inp: seq<byte>, k: seq<byte>, c: seq<byte>, i: nat): (w: int)
    requires |inp| == 16 && |k| == 32 && |c| == 16 && i < 16
    ensures 0 <= w < M32
  {
    if i % 5 == 0 then Word(c, i / 5)
    else if i < 5 then Word(k, i - 1)
    else if i < 10 then Word(inp, i - 6)
    else Word(k, i - 7)
  }

  ghost function Layout(inp: seq<byte>, k: seq<byte>, c: seq<byte>): (x: seq<int>)
    requires |inp| == 16 && |k| == 32 && |c| == 16
    ensures |x| == 16 && forall i :: 0 <= i < 16 ==> 0 <= x[i] < M32
  {
    seq(16, i requires 0 <= i < 16 => LayoutWord(inp, k, c, i))
  }

  ghost function WordAt<W>(x: Block<W>, i: nat): W
  {
    match i
    case 0 => x.x0 case 1 => x.x1 case 2 => x.x2 case 3 => x.x3
    case 4 => x.x4 case 5 => x.x5 case 6 => x.x6 case 7 => x.x7
    case 8 => x.x8 case 9 => x.x9 case 10 => x.x10 case 11 => x.x11
    case 12 => x.x12 case 13 => x.x13 case 14 => x.x14 case _ => x.x15
  }

  ghost function Words(x: Block<int>): (s: seq<int>)
    ensures |s| == 16
  {
    seq(16, i requires 0 <= i < 16 => WordAt(x, i))
  }

  // Ten double rounds on 32-bit words.
  ghost function TenDoubleRounds(x: seq<int>): (z: seq<int>)
    requires |x| == 16
    ensures |z| == 16
  {
    Words(Iterate(DoubleRound(Quarter(NarrowStep)), BlockOf(x), 10))
  }

  ghost function AddWords(x: seq<int>, z: seq<int>): (s: seq<int>)
    requires |x| == |z|
    ensures |s| == |x| && forall i :: 0 <= i < |x| ==> 0 <= s[i] < M32
  {
    seq(|x|, i requires 0 <= i < |x| => (x[i] + z[i]) % M32)
  }

  ghost function PickEight(z: seq<int>): (s: seq<int>)
    requires |z| == 16
    ensures |s| == 8 && forall i :: 0 <= i < 8 ==> 0 <= s[i] < M32
  {
    [z[0] % M32, z[5] % M32, z[10] % M32, z[15] % M32, z[6] % M32, z[7] % M32, z[8] % M32, z[9] % M32]
  }

  // With feed-forward.
  ghost function CoreSalsa20(inp: seq<byte>, k: seq<byte>, c: seq<byte>): (s: seq<byte>)
    requires |inp| == 16 && |k| == 32 && |c| == 16
    ensures |s| == 64
  {
    WordBytes(AddWords(Layout(inp, k, c), TenDoubleRounds(Layout(inp, k, c))))
  }

  // Without: eight words of the rounds themselves.
  ghost function CoreHSalsa20(inp: seq<byte>, k: seq<byte>, c: seq<byte>): (s: seq<byte>)
    requires |inp| == 16 && |k| == 32 && |c| == 16
    ensures |s| == 32
  {
    WordBytes(PickEight(TenDoubleRounds(Layout(inp, k, c))))
  }

  // ---- loading and storing words ----

  method ShiftIn(v: ulong, b: byte) returns (u: ulong)
    requires v < 0x100_0000_0000_0000
    ensures u == v * 256 + b as int
  {
    OrByte(v, b);
    u := Or(v * 256, b as int);
  }

  method Ld32(s: seq<byte>, i: nat) returns (u: ulong)
    requires 4 * i + 4 <= |s|
    ensures u == Word(s, i)
  {
    var x := s[4 * i..4 * i + 4];
    LeFour(x);
    u := x[3] as int;
    u := ShiftIn(u, x[2]);
    u := ShiftIn(u, x[1]);
    u := ShiftIn(u, x[0]);
  }

  // Low bytes of a word depend on the word modulo 2^32 only.
  lemma LowByte(v: int, i: nat)
    requires i < 4
    ensures DigitOf(v % M32, 256, i) == DigitOf(v, 256, i)
  {
    assert Pow(256, 4) == M32;
    DigitOfMod(v, 256, 4, i);
  }

  method St32(o: array<byte>, oo: nat, v: ulong)
    requires oo + 4 <= o.Length
    modifies o
    ensures o[oo..oo + 4] == LeBytes(v % M32, 4)
    ensures forall i :: 0 <= i < o.Length && (i < oo || i >= oo + 4) ==> o[i] == old(o[i])
  {
    var u := v;
    var i := 0;
    assert Pow(256, 0) == 1;
    while i < 4
      invariant 0 <= i <= 4
      invariant Pow(256, i) > 0 && u == v / Pow(256, i)
      invariant forall k :: 0 <= k < i ==> o[oo + k] == LeBytes(v % M32, 4)[k]
      invariant forall k :: 0 <= k < o.Length && (k < oo || k >= oo + 4) ==> o[k] == old(o[k])
    {
      PowPositive(256, i);
      DivTwice(v, Pow(256, i));
      LowByte(v, i);
      o[oo + i] := (u % 256) as byte;
      u := u / 256;
      i := i + 1;
      PowPositive(256, i);
    }
  }

  // ---- core ----

  /** The first loop of core. */
  method LoadBlock(x: array<ulong>, inp: seq<byte>, k: seq<byte>, c: seq<byte>)
    requires x.Length == 16 && |inp| == 16 && |k| == 32 && |c| == 16
    modifies x
    ensures x[..] == Layout(inp, k, c)
  {
    hide Layout, LoadedGroup;
    ghost var s := Layout(inp, k, c);
    var i := 0;
    while i < 4
      invariant 0 <= i <= 4
      invariant forall m :: 0 <= m < i ==> LoadedGroup(x[..], s, m)
    {
      ghost var was := x[..];
      LoadGroup(x, inp, k, c, s, i);
      forall m | 0 <= m < i
        ensures LoadedGroup(x[..], s, m)
      {
        OtherGroup(was, x[..], s, i, m);
      }
      i := i + 1;
    }
    AllLoaded(x[..], s);
  }

  method LoadGroup(x: array<ulong>, inp: seq<byte>, k: seq<byte>, c: seq<byte>, ghost s: seq<int>, i: nat)
    requires x.Length == 16 && |inp| == 16 && |k| == 32 && |c| == 16 && i < 4
    requires s == Layout(inp, k, c)
    modifies x
    ensures LoadedGroup(x[..], s, i)
    ensures forall m :: 0 <= m < 16 && m != 5 * i && m != 1 + i && m != 6 + i && m != 11 + i ==> x[m] == old(x[m])
  {
    LayoutGroup(inp, k, c, i);
    assert k[16..][4 * i..4 * i + 4] == k[4 * (4 + i)..4 * (4 + i) + 4];
    x[5 * i] := Ld32(c, i);
    x[1 + i] := Ld32(k, i);
    x[6 + i] := Ld32(inp, i);
    x[11 + i] := Ld32(k[16..], i);
  }

  ghost predicate LoadedGroup(x: seq<int>, s: seq<int>, m: nat)
    requires |x| == |s| == 16 && m < 4
  {
    x[5 * m] == s[5 * m] && x[1 + m] == s[1 + m] && x[6 + m] == s[6 + m] && x[11 + m] == s[11 + m]
  }

  lemma LayoutGroup(inp: seq<byte>, k: seq<byte>, c: seq<byte>, i: nat)
    requires |inp| == 16 && |k| == 32 && |c| == 16 && i < 4
    ensures var s := Layout(inp, k, c);
      s[5 * i] == Word(c, i) && s[1 + i] == Word(k, i) && s[6 + i] == Word(inp, i) && s[11 + i] == Word(k, 4 + i)
  {
  }

  lemma OtherGroup(x: seq<int>, y: seq<int>, s: seq<int>, i: nat, m: nat)
    requires |x| == |y| == |s| == 16 && m < i < 4 && LoadedGroup(x, s, m)
    requires forall l :: 0 <= l < 16 && l != 5 * i && l != 1 + i && l != 6 + i && l != 11 + i ==> y[l] == x[l]
    ensures LoadedGroup(y, s, m)
  {
  }

  lemma AllLoaded(x: seq<int>, s: seq<int>)
    requires |x| == |s| == 16 && forall m :: 0 <= m < 4 ==> LoadedGroup(x, s, m)
    ensures x == s
  {
    assert LoadedGroup(x, s, 0) && LoadedGroup(x, s, 1) && LoadedGroup(x, s, 2) && LoadedGroup(x, s, 3);
  }

  // What the twenty iterations leave, modulo 2^32.
  lemma RoundsLow(s: seq<int>, z: Block<int>)
    requires |s| == 16 && z == Iterate(DoubleRound(Quarter(NarrowStep)), BlockOf(s), 10)
    ensures TenDoubleRounds(s) == Words(z)
  {
    hide Iterate, DoubleRound, Quarter, NarrowStep, Words, BlockOf;
  }

  lemma LowOfSmall(s: seq<int>)
    requires |s| == 16 && forall i :: 0 <= i < 16 ==> 0 <= s[i] < M32
    ensures LowBlock(BlockOf(s)) == BlockOf(s)
  {
  }

  lemma LowOf(x: seq<int>, z: Block<int>)
    requires |x| == 16 && LowBlock(BlockOf(x)) == z
    ensures forall i :: 0 <= i < 16 ==> x[i] % M32 == Words(z)[i]
  {
  }

  method RunRounds(x: array<ulong>, ghost g: WordStep) returns (ghost z: seq<int>)
    requires IsWide(g)
    requires x.Length == 16 && forall i :: 0 <= i < 16 ==> x[i] < M32
    modifies x
    ensures |z| == 16 && z == TenDoubleRounds(old(x[..]))
    ensures forall i :: 0 <= i < 16 ==> x[i] % M32 == z[i]
  {
    hide *;
    ghost var s: seq<int> := x[..];
    Rounds(x, g);
    ghost var b := BlockOf(s);
    TwentyHalves(g, b);
    z := TenDoubleRounds(s);
    LowOfSmall(s);
    RoundsLow(s, LowBlock(BlockOf(x[..])));
    LowOf(x[..], LowBlock(BlockOf(x[..])));
  }

  lemma SumLow(x: int, y: int)
    ensures (x + y) % M64 % M32 == (y + x % M32) % M32
  {
    ModMod(x + y, M32, M32);
    ModAdd(x, y, M32);
    ModAdd(x % M32, y, M32);
  }

  // The definitions the two wrappers' proofs need; everything else stays hidden in them.
  lemma CoreUnfolds(inp: seq<byte>, k: seq<byte>, c: seq<byte>)
    requires |inp| == 16 && |k| == 32 && |c| == 16
    ensures IsWide(WideStep)
    ensures CoreSalsa20(inp, k, c) == WordBytes(AddWords(Layout(inp, k, c), TenDoubleRounds(Layout(inp, k, c))))
    ensures CoreHSalsa20(inp, k, c) == WordBytes(PickEight(TenDoubleRounds(Layout(inp, k, c))))
  {
  }

  /** crypto_core_salsa20. */
  method CryptoCoreSalsa20(out: array<byte>, inp: seq<byte>, k: seq<byte>, c: seq<byte>)
    requires out.Length == 64 && |inp| == 16 && |k| == 32 && |c| == 16
    modifies out
    ensures out[..] == CoreSalsa20(inp, k, c)
  {
    hide *;
    var x: array<ulong>, y: array<ulong> := new ulong[16], new ulong[16];
    ghost var s := Layout(inp, k, c);
    CoreUnfolds(inp, k, c);
    LoadBlock(x, inp, k, c);
    LoadBlock(y, inp, k, c);
    ghost var z := RunRounds(x, WideStep);
    FeedForward(out, x, y, s, z);
  }

  method FeedForward(out: array<byte>, x: array<ulong>, y: array<ulong>, ghost s: seq<int>, ghost z: seq<int>)
    requires out.Length == 64 && x.Length == y.Length == |s| == |z| == 16 && y[..] == s
    requires out as object != x as object && out as object != y as object
    requires forall i :: 0 <= i < 16 ==> x[i] % M32 == z[i]
    modifies out
    ensures out[..] == WordBytes(AddWords(s, z))
  {
    hide AddWords, WordBytes, LeBytes, Ints, Digits;
    ghost var ws := AddWords(s, z);
    ghost var wb := WordBytes(ws);
    var i := 0;
    while i < 16
      invariant 0 <= i <= 16
      invariant forall m :: 0 <= m < 4 * i ==> out[m] == wb[m]
      invariant y[..] == s && x[..] == old(x[..])
    {
      SumLow(x[i], y[i]);
      SumWord(s, z, i);
      St32(out, 4 * i, (x[i] as int + y[i] as int) % M64);
      SliceOfWords(ws, i);
      SameSlice(out[..], wb, 4 * i, 4 * i + 4);
      i := i + 1;
    }
  }

  lemma SumWord(s: seq<int>, z: seq<int>, i: nat)
    requires |s| == |z| && i < |s|
    ensures AddWords(s, z)[i] == (s[i] + z[i]) % M32
  {
  }

  lemma SliceOfWords(ws: seq<int>, i: nat)
    requires i < |ws| && forall m :: 0 <= m < |ws| ==> ws[m] >= 0
    ensures WordBytes(ws)[4 * i..4 * i + 4] == LeBytes(ws[i], 4)
  {
  }

  lemma SameSlice(a: seq<byte>, b: seq<byte>, lo: nat, hi: nat)
    requires lo <= hi <= |a| && hi <= |b| && a[lo..hi] == b[lo..hi]
    ensures forall m :: lo <= m < hi ==> a[m] == b[m]
  {
    forall m | lo <= m < hi
      ensures a[m] == b[m]
    {
      assert a[m] == a[lo..hi][m - lo];
    }
  }

  // Adding the input back and taking it out again leaves the word.
  lemma AddThenSubtract(x: int, y: int)
    requires 0 <= x < M64
    ensures ((x + y) % M64 - y) % M64 == x
  {
    ModSub((x + y) % M64, y, M64);
    ModSub(x + y, y, M64);
    assert (x + y) % M64 % M64 == (x + y) % M64;
    ModSmall(x, M64);
  }

  /** crypto_core_hsalsa20: the feed-forward is added to all words and taken back out of the eight that are stored. */
  method CryptoCoreHsalsa20(out: array<byte>, inp: seq<byte>, k: seq<byte>, c: seq<byte>)
    requires out.Length == 32 && |inp| == 16 && |k| == 32 && |c| == 16
    modifies out
    ensures out[..] == CoreHSalsa20(inp, k, c)
  {
    hide *;
    var x: array<ulong>, y: array<ulong> := new ulong[16], new ulong[16];
    ghost var s := Layout(inp, k, c);
    CoreUnfolds(inp, k, c);
    LayoutGroups(inp, k, c);
    LoadBlock(x, inp, k, c);
    LoadBlock(y, inp, k, c);
    ghost var z := RunRounds(x, WideStep);
    ghost var x0: seq<int> := x[..];
    AddAll(x, y);
    TakeBack(x, inp, c, x0, s);
    StoreEight(out, x, x0, z);
  }

  lemma LayoutGroups(inp: seq<byte>, k: seq<byte>, c: seq<byte>)
    requires |inp| == 16 && |k| == 32 && |c| == 16
    ensures forall i :: 0 <= i < 4 ==>
      Layout(inp, k, c)[5 * i] == Word(c, i) && Layout(inp, k, c)[6 + i] == Word(inp, i)
  {
    forall i | 0 <= i < 4
      ensures Layout(inp, k, c)[5 * i] == Word(c, i) && Layout(inp, k, c)[6 + i] == Word(inp, i)
    {
      LayoutGroup(inp, k, c, i);
    }
  }

  method AddAll(x: array<ulong>, y: array<ulong>)
    requires x.Length == y.Length == 16 && x != y
    modifies x
    ensures forall i :: 0 <= i < 16 ==> x[i] == (old(x[i]) + y[i]) % M64
  {
    var i := 0;
    while i < 16
      invariant 0 <= i <= 16
      invariant forall m :: 0 <= m < i ==> x[m] == (old(x[m]) + y[m]) % M64
      invariant forall m :: i <= m < 16 ==> x[m] == old(x[m])
    {
      x[i] := (x[i] as int + y[i] as int) % M64;
      i := i + 1;
    }
  }

  method TakeBack(x: array<ulong>, inp: seq<byte>, c: seq<byte>, ghost x0: seq<int>, ghost y: seq<int>)
    requires x.Length == |x0| == |y| == 16 && |inp| == |c| == 16
    requires forall i :: 0 <= i < 16 ==> 0 <= x0[i] < 0x1_0000_0000_0000_0000 && x[i] == (x0[i] + y[i]) % M64
    requires forall i :: 0 <= i < 4 ==> y[5 * i] == Word(c, i) && y[6 + i] == Word(inp, i)
    modifies x
    ensures forall i :: 0 <= i < 4 ==> Restored(x[..], x0, i)
  {
    AllPending(x[..], x0, y);
    hide Restored, Pending, Word;
    var i := 0;
    while i < 4
      invariant 0 <= i <= 4
      invariant forall m :: 0 <= m < i ==> Restored(x[..], x0, m)
      invariant forall m :: i <= m < 4 ==> Pending(x[..], x0, y, m)
    {
      ghost var was := x[..];
      TakeBackGroup(x, inp, c, x0, y, i);
      forall m | 0 <= m < 4 && m != i
        ensures m < i ==> Restored(x[..], x0, m)
        ensures m > i ==> Pending(x[..], x0, y, m)
      {
        OtherTakeBack(was, x[..], x0, y, i, m);
      }
      i := i + 1;
    }
  }

  lemma AllPending(x: seq<int>, x0: seq<int>, y: seq<int>)
    requires |x| == |x0| == |y| == 16 && forall i :: 0 <= i < 16 ==> x[i] == (x0[i] + y[i]) % M64
    ensures forall m :: 0 <= m < 4 ==> Pending(x, x0, y, m)
  {
  }

  lemma OtherTakeBack(x: seq<int>, x': seq<int>, x0: seq<int>, y: seq<int>, i: nat, m: nat)
    requires |x| == |x'| == |x0| == |y| == 16 && i < 4 && m < 4 && m != i
    requires forall l :: 0 <= l < 16 && l != 5 * i && l != 6 + i ==> x'[l] == x[l]
    ensures Restored(x, x0, m) ==> Restored(x', x0, m)
    ensures Pending(x, x0, y, m) ==> Pending(x', x0, y, m)
  {
  }

  method TakeBackGroup(x: array<ulong>, inp: seq<byte>, c: seq<byte>, ghost x0: seq<int>, ghost y: seq<int>, i: nat)
    requires x.Length == |x0| == |y| == 16 && |inp| == |c| == 16 && i < 4
    requires forall m :: 0 <= m < 16 ==> 0 <= x0[m] < 0x1_0000_0000_0000_0000
    requires y[5 * i] == Word(c, i) && y[6 + i] == Word(inp, i)
    requires Pending(x[..], x0, y, i)
    modifies x
    ensures Restored(x[..], x0, i)
    ensures forall m :: 0 <= m < 16 && m != 5 * i && m != 6 + i ==> x[m] == old(x[m])
  {
    AddThenSubtract(x0[5 * i], y[5 * i]);
    AddThenSubtract(x0[6 + i], y[6 + i]);
    var cw := Ld32(c, i);
    x[5 * i] := (x[5 * i] as int - cw as int) % M64;
    var iw := Ld32(inp, i);
    x[6 + i] := (x[6 + i] as int - iw as int) % M64;
  }

  ghost predicate Restored(x: seq<int>, x0: seq<int>, m: nat)
    requires |x| == |x0| == 16 && m < 4
  {
    x[5 * m] == x0[5 * m] && x[6 + m] == x0[6 + m]
  }

  ghost predicate Pending(x: seq<int>, x0: seq<int>, y: seq<int>, m: nat)
    requires |x| == |x0| == |y| == 16 && m < 4
  {
    x[5 * m] == (x0[5 * m] + y[5 * m]) % M64 && x[6 + m] == (x0[6 + m] + y[6 + m]) % M64
  }

  lemma RestoredAt(x: seq<int>, x0: seq<int>, m: nat)
    requires |x| == |x0| == 16 && m < 4 && Restored(x, x0, m)
    ensures x[5 * m] == x0[5 * m] && x[6 + m] == x0[6 + m]
  {
  }

  lemma PickAt(z: seq<int>, i: nat)
    requires |z| == 16 && i < 4
    ensures PickEight(z)[i] == z[5 * i] % M32 && PickEight(z)[4 + i] == z[6 + i] % M32
  {
  }

  // Word i of each half.
  method StorePair(out: array<byte>, x: array<ulong>, ghost x0: seq<int>, ghost z: seq<int>, i: nat)
    requires out.Length == 32 && x.Length == |x0| == |z| == 16 && out as object != x as object && i < 4
    requires Restored(x[..], x0, i) && forall m :: 0 <= m < 16 ==> x0[m] % M32 == z[m]
    modifies out
    ensures |WordBytes(PickEight(z))| == 32
    ensures out[4 * i..4 * i + 4] == WordBytes(PickEight(z))[4 * i..4 * i + 4]
    ensures out[16 + 4 * i..20 + 4 * i] == WordBytes(PickEight(z))[16 + 4 * i..20 + 4 * i]
    ensures forall m :: 0 <= m < 32 && !(4 * i <= m < 4 * i + 4) && !(16 + 4 * i <= m < 20 + 4 * i) ==>
      out[m] == old(out[m])
  {
    hide *;
    ghost var ws := PickEight(z);
    RestoredAt(x[..], x0, i);
    PickAt(z, i);
    ModMod(x[5 * i], M32, 1);
    ModMod(x[6 + i], M32, 1);
    SliceOfWords(ws, i);
    SliceOfWords(ws, 4 + i);
    St32(out, 4 * i, x[5 * i]);
    ghost var first := out[4 * i..4 * i + 4];
    St32(out, 16 + 4 * i, x[6 + i]);
    assert out[4 * i..4 * i + 4] == first;
    assert 4 * (4 + i) == 16 + 4 * i;
  }

  method StoreEight(out: array<byte>, x: array<ulong>, ghost x0: seq<int>, ghost z: seq<int>)
    requires out.Length == 32 && x.Length == |x0| == |z| == 16 && out as object != x as object
    requires forall i :: 0 <= i < 4 ==> Restored(x[..], x0, i)
    requires forall i :: 0 <= i < 16 ==> x0[i] % M32 == z[i]
    modifies out
    ensures out[..] == WordBytes(PickEight(z))
  {
    hide *;
    ghost var ws := PickEight(z);
    ghost var wb := WordBytes(ws);
    var i := 0;
    while i < 4
      invariant 0 <= i <= 4
      invariant forall m :: 0 <= m < 4 * i ==> out[m] == wb[m]
      invariant forall m :: 16 <= m < 16 + 4 * i ==> out[m] == wb[m]
      invariant x[..] == old(x[..])
    {
      StorePair(out, x, x0, z, i);
      SameSlice(out[..], wb, 4 * i, 4 * i + 4);
      SameSlice(out[..], wb, 16 + 4 * i, 20 + 4 * i);
      i := i + 1;
    }
  }
}
