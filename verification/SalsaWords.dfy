/** The Salsa20 functions on machine words, and that the functions on numbers compute the same. */
module SalsaWords {
  import opened Arith
  import opened Bits
  import opened Words
  import opened Salsa20
  import opened SalsaStream

  // The number a 32-bit word stands for.
  ghost function N(w: bv64): (x: int)
    ensures 0 <= x < M32
  {
    VBound(w, 32);
    TwoTo32();
    V(w, 32)
  }

  // ---- a quarter round ----

  function Step7(x: bv64, y: bv64, z: bv64): bv64
  {
    var w := 0xffff_ffff & (y + z);
    x ^ ((0xffff_ffff & (w << 7)) | (w >> 25))
  }

  function Step9(x: bv64, y: bv64, z: bv64): bv64
  {
    var w := 0xffff_ffff & (y + z);
    x ^ ((0xffff_ffff & (w << 9)) | (w >> 23))
  }

  function Step13(x: bv64, y: bv64, z: bv64): bv64
  {
    var w := 0xffff_ffff & (y + z);
    x ^ ((0xffff_ffff & (w << 13)) | (w >> 19))
  }

  function Step18(x: bv64, y: bv64, z: bv64): bv64
  {
    var w := 0xffff_ffff & (y + z);
    x ^ ((0xffff_ffff & (w << 18)) | (w >> 14))
  }

  function QuarterWords(y: Quad<bv64>): Quad<bv64>
  {
    var z1 := Step7(y.b, y.a, y.d);
    var z2 := Step9(y.c, z1, y.a);
    var z3 := Step13(y.d, z2, z1);
    var z0 := Step18(y.a, z3, z2);
    Quad(z0, z1, z2, z3)
  }

  // ---- the steps, one operator at a time ----

  function Plus(y: bv64, z: bv64): bv64 { y + z }

  function Low32(w: bv64): bv64 { AndWord(0xffff_ffff, w) }

  function Sum(y: bv64, z: bv64): bv64 { Low32(Plus(y, z)) }

  function Turn7(w: bv64): bv64 { OrWord(Low32(w << 7), w >> 25) }

  function Turn9(w: bv64): bv64 { OrWord(Low32(w << 9), w >> 23) }

  function Turn13(w: bv64): bv64 { OrWord(Low32(w << 13), w >> 19) }

  function Turn18(w: bv64): bv64 { OrWord(Low32(w << 18), w >> 14) }

  // As functions, so that a use of them is about the very words they are applied to.
  ghost function Step7Is(x: bv64, y: bv64, z: bv64): (done: bool)
    ensures done && Step7(x, y, z) == XorWord(x, Turn7(Sum(y, z)))
  {
    true
  }

  ghost function Step9Is(x: bv64, y: bv64, z: bv64): (done: bool)
    ensures done && Step9(x, y, z) == XorWord(x, Turn9(Sum(y, z)))
  {
    true
  }

  ghost function Step13Is(x: bv64, y: bv64, z: bv64): (done: bool)
    ensures done && Step13(x, y, z) == XorWord(x, Turn13(Sum(y, z)))
  {
    true
  }

  ghost function Step18Is(x: bv64, y: bv64, z: bv64): (done: bool)
    ensures done && Step18(x, y, z) == XorWord(x, Turn18(Sum(y, z)))
  {
    true
  }

  lemma NIs(w: bv64)
    ensures N(w) == V(w, 32)
  {
    hide V;
  }

  lemma LowIs(w: bv64)
    ensures N(Low32(w)) == N(w)
  {
    hide V, Ones, AndWord;
    AllOnes();
    MaskIs(w, 0xffff_ffff, 32);
  }

  lemma PlusIs(y: bv64, z: bv64)
    ensures Pow(2, 32) > 0 && V(Plus(y, z), 32) == (V(y, 32) + V(z, 32)) % Pow(2, 32)
  {
    hide V;
    assert Summed(y, z, 32);
  }

  lemma SumWords(y: bv64, z: bv64)
    ensures N(Sum(y, z)) == (N(y) + N(z)) % M32 && Short(Sum(y, z))
  {
    hide V, Plus, Low32;
    TwoTo32();
    LowIs(Plus(y, z));
    PlusIs(y, z);
    LowFits(Plus(y, z));
  }

  // No bits above the low 32.
  predicate Short(w: bv64) { Fits(w, 32) }

  lemma LowFits(w: bv64)
    ensures Short(Low32(w))
  {
  }

  lemma UpSteps(w: bv64)
    ensures Up(w, 7) == w << 7 && Up(w, 9) == w << 9 && Up(w, 13) == w << 13 && Up(w, 18) == w << 18
  {
    hide Up;
    assert UpTwo(w, 5) && UpTwo(w << 2, 3) && UpTwo(w << 4, 1) && UpOne(w << 6, 0);
    assert UpEight(w, 1) && UpOne(w << 8, 0);
    assert UpEight(w, 5) && UpTwo(w << 8, 3) && UpTwo(w << 10, 1) && UpOne(w << 12, 0);
    assert UpEight(w, 10) && UpEight(w << 8, 2) && UpTwo(w << 16, 0);
    UpNone(w << 7);
    UpNone(w << 9);
    UpNone(w << 13);
    UpNone(w << 18);
  }

  lemma DownSteps(w: bv64)
    ensures Down(w, 14) == w >> 14 && Down(w, 19) == w >> 19 && Down(w, 23) == w >> 23 && Down(w, 25) == w >> 25
  {
    hide Down;
    assert DownEight(w, 6) && DownEight(w, 11) && DownEight(w, 15) && DownEight(w, 17);
    assert DownEight(w >> 8, 3) && DownEight(w >> 8, 7) && DownEight(w >> 8, 9) && DownEight(w >> 16, 1);
    assert DownTwo(w >> 8, 4) && DownTwo(w >> 10, 2) && DownTwo(w >> 12, 0);
    assert DownTwo(w >> 16, 1) && DownOne(w >> 18, 0);
    assert DownTwo(w >> 16, 5) && DownTwo(w >> 18, 3) && DownTwo(w >> 20, 1) && DownOne(w >> 22, 0);
    assert DownOne(w >> 24, 0);
    DownNone(w >> 14);
    DownNone(w >> 19);
    DownNone(w >> 23);
    DownNone(w >> 25);
  }

  // Shifted words u and d, joined, are the rotation.
  lemma Turned(w: bv64, u: bv64, d: bv64, c: nat)
    requires Short(w) && c <= 32 && u == Up(w, c) && d == Down(w, 32 - c)
    ensures N(OrWord(Low32(u), d)) == Rotl(N(w), c)
  {
    hide V, Up, Down, Low32, OrWord, Fits, Or, Pow, Rotl;
    TwoTo32();
    RotlIs(N(w), c);
    UpIs(w, 32, c);
    DownIs(w, 32, 32 - c);
    LowIs(u);
    OrIs(Low32(u), d, 32);
  }

  lemma RotlIs(x: int, c: nat)
    requires c <= 32
    ensures Pow(2, 32 - c) > 0 && Rotl(x, c) == Or(x * Pow(2, c) % M32, x / Pow(2, 32 - c))
  {
    hide Or, Pow;
    PowPositive(2, 32 - c);
  }

  lemma Turn7Is(w: bv64)
    requires Short(w)
    ensures N(Turn7(w)) == Rotl(N(w), 7)
  {
    hide N, Rotl, Up, Down, Low32, OrWord, Fits;
    UpSteps(w);
    DownSteps(w);
    Turned(w, w << 7, w >> 25, 7);
  }

  lemma Turn9Is(w: bv64)
    requires Short(w)
    ensures N(Turn9(w)) == Rotl(N(w), 9)
  {
    hide N, Rotl, Up, Down, Low32, OrWord, Fits;
    UpSteps(w);
    DownSteps(w);
    Turned(w, w << 9, w >> 23, 9);
  }

  lemma Turn13Is(w: bv64)
    requires Short(w)
    ensures N(Turn13(w)) == Rotl(N(w), 13)
  {
    hide N, Rotl, Up, Down, Low32, OrWord, Fits;
    UpSteps(w);
    DownSteps(w);
    Turned(w, w << 13, w >> 19, 13);
  }

  lemma Turn18Is(w: bv64)
    requires Short(w)
    ensures N(Turn18(w)) == Rotl(N(w), 18)
  {
    hide N, Rotl, Up, Down, Low32, OrWord, Fits;
    UpSteps(w);
    DownSteps(w);
    Turned(w, w << 18, w >> 14, 18);
  }

  lemma XorWords(x: bv64, y: bv64)
    ensures N(XorWord(x, y)) == Xor(N(x), N(y))
  {
    hide V, Xor, XorWord;
    XorIs(x, y, 32);
  }

  lemma StepWords(x: bv64, y: bv64, z: bv64, c: Distance, t: bv64)
    requires N(t) == Rotl(N(Sum(y, z)), c)
    ensures NarrowStep(N(x), N(y), N(z), c) == N(XorWord(x, t))
  {
    hide N, Rotl, Xor, Sum, XorWord;
    SumWords(y, z);
    XorWords(x, t);
  }

  lemma AllSteps(x: bv64, y: bv64, z: bv64)
    ensures NarrowStep(N(x), N(y), N(z), 7) == N(Step7(x, y, z))
    ensures NarrowStep(N(x), N(y), N(z), 9) == N(Step9(x, y, z))
    ensures NarrowStep(N(x), N(y), N(z), 13) == N(Step13(x, y, z))
    ensures NarrowStep(N(x), N(y), N(z), 18) == N(Step18(x, y, z))
  {
    hide *;
    var s := Sum(y, z);
    SumWords(y, z);
    assert Step7Is(x, y, z) && Step9Is(x, y, z) && Step13Is(x, y, z) && Step18Is(x, y, z);
    Turn7Is(s);
    Turn9Is(s);
    Turn13Is(s);
    Turn18Is(s);
    StepWords(x, y, z, 7, Turn7(s));
    StepWords(x, y, z, 9, Turn9(s));
    StepWords(x, y, z, 13, Turn13(s));
    StepWords(x, y, z, 18, Turn18(s));
  }

  ghost function QuadOf(y: Quad<bv64>): Quad<int> { Quad(N(y.a), N(y.b), N(y.c), N(y.d)) }

  /** The quarter round on numbers is the quarter round on words. */
  lemma QuarterIs(y: Quad<bv64>)
    ensures Quarter(NarrowStep)(QuadOf(y)) == QuadOf(QuarterWords(y))
  {
    hide N, NarrowStep, Step7, Step9, Step13, Step18;
    var z1 := Step7(y.b, y.a, y.d);
    var z2 := Step9(y.c, z1, y.a);
    var z3 := Step13(y.d, z2, z1);
    AllSteps(y.b, y.a, y.d);
    AllSteps(y.c, z1, y.a);
    AllSteps(y.d, z2, z1);
    AllSteps(y.a, z3, z2);
  }

  // ---- the rounds ----

  ghost function NumbersOf(x: Block<bv64>): Block<int>
  {
    Block(N(x.x0), N(x.x1), N(x.x2), N(x.x3), N(x.x4), N(x.x5), N(x.x6), N(x.x7),
          N(x.x8), N(x.x9), N(x.x10), N(x.x11), N(x.x12), N(x.x13), N(x.x14), N(x.x15))
  }

  lemma RoundIs(x: Block<bv64>)
    ensures DoubleRound(Quarter(NarrowStep))(NumbersOf(x)) == NumbersOf(DoubleRound(QuarterWords)(x))
  {
    hide Quarter, QuarterWords, NumbersOf, ColumnRound, RowRound;
    ColumnsAre(x);
    RowsAre(ColumnRound(QuarterWords, x));
  }

  lemma ColumnsAre(x: Block<bv64>)
    ensures ColumnRound(Quarter(NarrowStep), NumbersOf(x)) == NumbersOf(ColumnRound(QuarterWords, x))
  {
    hide N, Quarter, QuarterWords;
    QuarterIs(Quad(x.x0, x.x4, x.x8, x.x12));
    QuarterIs(Quad(x.x5, x.x9, x.x13, x.x1));
    QuarterIs(Quad(x.x10, x.x14, x.x2, x.x6));
    QuarterIs(Quad(x.x15, x.x3, x.x7, x.x11));
  }

  lemma RowsAre(x: Block<bv64>)
    ensures RowRound(Quarter(NarrowStep), NumbersOf(x)) == NumbersOf(RowRound(QuarterWords, x))
  {
    hide N, Quarter, QuarterWords;
    QuarterIs(Quad(x.x0, x.x1, x.x2, x.x3));
    QuarterIs(Quad(x.x5, x.x6, x.x7, x.x4));
    QuarterIs(Quad(x.x10, x.x11, x.x8, x.x9));
    QuarterIs(Quad(x.x15, x.x12, x.x13, x.x14));
  }

  lemma {:induction false} RoundsAre(x: Block<bv64>, n: nat)
    ensures Iterate(DoubleRound(Quarter(NarrowStep)), NumbersOf(x), n)
         == NumbersOf(Iterate(DoubleRound(QuarterWords), x, n))
  {
    hide DoubleRound, Quarter, NumbersOf;
    if n > 0 {
      RoundsAre(x, n - 1);
      RoundIs(Iterate(DoubleRound(QuarterWords), x, n - 1));
    }
  }

  // ---- bytes ----

  function BytesOf(w: bv64): (s: seq<byte>)
    ensures |s| == 4
  {
    [ByteOf(w), ByteOf(w >> 8), ByteOf(w >> 16), ByteOf(w >> 24)]
  }

  /** The bytes of a word, lowest first, have its number. */
  lemma BytesAre(w: bv64)
    ensures Le(BytesOf(w)) == N(w) && LeBytes(N(w), 4) == BytesOf(w)
  {
    hide V, Le, ByteOf, LeBytes;
    assert ByteSplit(w, 24) && ByteSplit(w >> 8, 16) && ByteSplit(w >> 16, 8) && ByteSplit(w >> 24, 0);
    LeFour(BytesOf(w));
    VNone(w >> 32);
    assert Pow(256, 4) == M32;
    LeOfLeBytes(N(w), 4);
    LeInjective(LeBytes(N(w), 4), BytesOf(w));
  }

  // ---- the core ----

  function Twice(x: Block<bv64>): Block<bv64> { RowRound(QuarterWords, ColumnRound(QuarterWords, x)) }

  // Ten double rounds, one inside the other.
  function TenRounds(x: Block<bv64>): Block<bv64>
  {
    Twice(Twice(Twice(Twice(Twice(Twice(Twice(Twice(Twice(Twice(x))))))))))
  }

  lemma {:induction false} TenTimes<T>(g: T -> T, x: T)
    ensures Iterate(g, x, 10) == g(g(g(g(g(g(g(g(g(g(x))))))))))
  {
    assert Iterate(g, x, 0) == x && Iterate(g, x, 1) == g(x);
    assert Iterate(g, x, 2) == g(g(x));
    assert Iterate(g, x, 4) == g(g(Iterate(g, x, 2)));
    assert Iterate(g, x, 6) == g(g(Iterate(g, x, 4)));
    assert Iterate(g, x, 8) == g(g(Iterate(g, x, 6)));
  }

  lemma TenRoundsAre(x: Block<bv64>, s: seq<int>)
    requires |s| == 16 && BlockOf(s) == NumbersOf(x)
    ensures TenDoubleRounds(s) == SalsaStream.Words(NumbersOf(TenRounds(x)))
  {
    hide BlockOf, NumbersOf, SalsaStream.Words, Quarter, QuarterWords, ColumnRound, RowRound;
    RoundsAre(x, 10);
    TenTimes(DoubleRound(QuarterWords), x);
  }

  lemma NumberAt(x: Block<bv64>, i: nat)
    requires i < 16
    ensures WordAt(NumbersOf(x), i) == N(WordAt(x, i))
  {
    hide N;
    match i
    case 0 => case 1 => case 2 => case 3 => case 4 => case 5 => case 6 => case 7 =>
    case 8 => case 9 => case 10 => case 11 => case 12 => case 13 => case 14 => case _ =>
  }

  lemma BlockAt(s: seq<int>, i: nat)
    requires |s| == 16 && i < 16
    ensures WordAt(BlockOf(s), i) == s[i]
  {
  }

  // Where the words of block x are in the constant, the key and the input of the core.
  ghost predicate ConstantOut(x: Block<bv64>, c: seq<byte>)
    requires |c| == 16
  {
    c[..4] == BytesOf(x.x0) && c[4..8] == BytesOf(x.x5) && c[8..12] == BytesOf(x.x10) && c[12..] == BytesOf(x.x15)
  }

  ghost predicate KeyOut(x: Block<bv64>, k: seq<byte>)
    requires |k| == 32
  {
    && k[..4] == BytesOf(x.x1) && k[4..8] == BytesOf(x.x2) && k[8..12] == BytesOf(x.x3) && k[12..16] == BytesOf(x.x4)
    && k[16..20] == BytesOf(x.x11) && k[20..24] == BytesOf(x.x12)
    && k[24..28] == BytesOf(x.x13) && k[28..] == BytesOf(x.x14)
  }

  ghost predicate InputOut(x: Block<bv64>, inp: seq<byte>)
    requires |inp| == 16
  {
    && inp[..4] == BytesOf(x.x6) && inp[4..8] == BytesOf(x.x7)
    && inp[8..12] == BytesOf(x.x8) && inp[12..] == BytesOf(x.x9)
  }

  ghost predicate LaidOut(x: Block<bv64>, inp: seq<byte>, k: seq<byte>, c: seq<byte>)
    requires |inp| == 16 && |k| == 32 && |c| == 16
  {
    ConstantOut(x, c) && KeyOut(x, k) && InputOut(x, inp)
  }

  lemma WordIs(s: seq<byte>, i: nat, w: bv64)
    requires 4 * i + 4 <= |s| && s[4 * i..4 * i + 4] == BytesOf(w)
    ensures Word(s, i) == N(w)
  {
    hide N, Le, BytesOf;
    BytesAre(w);
  }

  lemma LayoutIs(x: Block<bv64>, inp: seq<byte>, k: seq<byte>, c: seq<byte>)
    requires |inp| == 16 && |k| == 32 && |c| == 16 && LaidOut(x, inp, k, c)
    ensures BlockOf(Layout(inp, k, c)) == NumbersOf(x)
  {
    hide N, Word, BytesOf;
    WordIs(c, 0, x.x0);
    WordIs(c, 1, x.x5);
    WordIs(c, 2, x.x10);
    WordIs(c, 3, x.x15);
    WordIs(k, 0, x.x1);
    WordIs(k, 1, x.x2);
    WordIs(k, 2, x.x3);
    WordIs(k, 3, x.x4);
    WordIs(k, 4, x.x11);
    WordIs(k, 5, x.x12);
    WordIs(k, 6, x.x13);
    WordIs(k, 7, x.x14);
    WordIs(inp, 0, x.x6);
    WordIs(inp, 1, x.x7);
    WordIs(inp, 2, x.x8);
    WordIs(inp, 3, x.x9);
  }

  // i-th row of four bytes.
  ghost function RowAt(s: seq<byte>, i: nat): seq<byte>
    requires 4 * i + 4 <= |s|
  {
    s[4 * i..4 * i + 4]
  }

  lemma RowOfWords(ws: seq<int>, i: nat, w: bv64)
    requires i < |ws| && (forall m :: 0 <= m < |ws| ==> ws[m] >= 0) && ws[i] == N(w)
    ensures RowAt(WordBytes(ws), i) == BytesOf(w)
  {
    hide N, LeBytes, BytesOf, WordBytes;
    SliceOfWords(ws, i);
    BytesAre(w);
  }

  // The rounds, added to what went in.
  function Fed(x: Block<bv64>, z: Block<bv64>): Block<bv64>
  {
    Block(Sum(x.x0, z.x0), Sum(x.x1, z.x1), Sum(x.x2, z.x2), Sum(x.x3, z.x3),
          Sum(x.x4, z.x4), Sum(x.x5, z.x5), Sum(x.x6, z.x6), Sum(x.x7, z.x7),
          Sum(x.x8, z.x8), Sum(x.x9, z.x9), Sum(x.x10, z.x10), Sum(x.x11, z.x11),
          Sum(x.x12, z.x12), Sum(x.x13, z.x13), Sum(x.x14, z.x14), Sum(x.x15, z.x15))
  }

  lemma FedAt(x: Block<bv64>, z: Block<bv64>, i: nat)
    requires i < 16
    ensures WordAt(Fed(x, z), i) == Sum(WordAt(x, i), WordAt(z, i))
  {
    hide Sum;
    match i
    case 0 => case 1 => case 2 => case 3 => case 4 => case 5 => case 6 => case 7 =>
    case 8 => case 9 => case 10 => case 11 => case 12 => case 13 => case 14 => case _ =>
  }

  /** Salsa20's core, word by word. */
  lemma CoreIs(x: Block<bv64>, inp: seq<byte>, k: seq<byte>, c: seq<byte>, i: nat)
    requires |inp| == 16 && |k| == 32 && |c| == 16 && i < 16 && LaidOut(x, inp, k, c)
    ensures RowAt(CoreSalsa20(inp, k, c), i) == BytesOf(WordAt(Fed(x, TenRounds(x)), i))
  {
    hide *;
    var s := Layout(inp, k, c);
    var z := TenDoubleRounds(s);
    LayoutIs(x, inp, k, c);
    TenRoundsAre(x, s);
    BlockAt(s, i);
    NumberAt(x, i);
    NumberAt(TenRounds(x), i);
    WordsAt(NumbersOf(TenRounds(x)), i);
    SumWord(s, z, i);
    SumWords(WordAt(x, i), WordAt(TenRounds(x), i));
    FedAt(x, TenRounds(x), i);
    CoreUnfolds(inp, k, c);
    RowOfWords(AddWords(s, z), i, Sum(WordAt(x, i), WordAt(TenRounds(x), i)));
  }

  lemma WordsAt(z: Block<int>, i: nat)
    requires i < 16
    ensures SalsaStream.Words(z)[i] == WordAt(z, i)
  {
  }

  // The words of HSalsa20, by their places in the block.
  function Picked(i: nat): (j: nat)
    ensures j < 16
  {
    if i < 4 then 5 * i else if i < 8 then i + 2 else 0
  }

  /** The words of HSalsa20's core. */
  lemma HCoreIs(x: Block<bv64>, inp: seq<byte>, k: seq<byte>, c: seq<byte>, i: nat)
    requires |inp| == 16 && |k| == 32 && |c| == 16 && i < 8 && LaidOut(x, inp, k, c)
    ensures RowAt(CoreHSalsa20(inp, k, c), i) == BytesOf(WordAt(TenRounds(x), Picked(i)))
  {
    hide *;
    var s := Layout(inp, k, c);
    var z := TenDoubleRounds(s);
    LayoutIs(x, inp, k, c);
    TenRoundsAre(x, s);
    NumberAt(TenRounds(x), Picked(i));
    WordsAt(NumbersOf(TenRounds(x)), Picked(i));
    PickedAt(z, i);
    ModSmall(N(WordAt(TenRounds(x), Picked(i))), M32);
    CoreUnfolds(inp, k, c);
    RowOfWords(PickEight(z), i, WordAt(TenRounds(x), Picked(i)));
  }

  lemma PickedAt(z: seq<int>, i: nat)
    requires |z| == 16 && i < 8
    ensures PickEight(z)[i] == z[Picked(i)] % M32
  {
  }
}
