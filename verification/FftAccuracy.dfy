/** The fixed-point FFT computes the values of its input at the odd powers of the principal root, up to a stated error. */
module FftAccuracy {
  import opened Arith
  import opened BitReversal
  import opened ComplexReal
  import opened RootTable
  import opened RootAccuracy
  import opened Evaluation
  import opened Fft

  const ONE_Q16 := 65536.0

  /** The shipped table. */
  function ShippedRoots(): (roots: seq<Complex>)
    ensures |roots| == SIZE
  {
    seq(SIZE, k requires 0 <= k < SIZE => Root(k))
  }

  lemma RootWithin(k: nat)
    requires k < 256
    ensures Root(k).Within(65536)
  {
  }

  lemma ShippedRootsValid()
    ensures Roots(ShippedRoots())
  {
    hide Root;
    forall k | 0 <= k < SIZE
      ensures ShippedRoots()[k].Within(65536)
    {
      RootWithin(k);
    }
  }

  /** How far the stored numbers may be from the ideal ones after each stage, in units of 2^-16. */
  function ErrorAfter(stage: nat): real
    requires stage <= 8
  {
    match stage
    case 0 => 1.42
    case 1 => 5.8
    case 2 => 16.0
    case 3 => 39.2
    case 4 => 91.3
    case 5 => 206.9
    case 6 => 460.8
    case 7 => 1014.1
    case 8 => 2212.0
  }

  // ---------- one product ----------

  lemma NearDescale(x: Cx, y: Cx, e: real)
    requires 0.0 <= e && Near(Times(ONE_Q16, x), Times(ONE_Q16, y), ONE_Q16 * e)
    ensures Near(x, y, e)
  {
    hide Norm2, Sub, Times;
    TimesSub(ONE_Q16, x, y);
    TimesNorm(ONE_Q16, Sub(x, y));
    SquareOfProduct(ONE_Q16, e);
  }

  /** Rounding moves a product by less than one and a half units. */
  lemma RoundingNear(x: Complex, y: Complex)
    ensures Near(Times(ONE_Q16, Exact(CMul(x, y))), Mul(Exact(x), Exact(y)), ONE_Q16 * 1.5)
  {
    CMulExact(x, y);
    ExactProduct(x, y);
    hide CMul, Product, Mul;
    ComponentsNear(Times(ONE_Q16, Exact(CMul(x, y))), Exact(Product(x, y)));
  }

  lemma ComponentsNear(x: Cx, y: Cx)
    requires -ONE_Q16 <= x.re - y.re <= ONE_Q16 && -ONE_Q16 <= x.im - y.im <= ONE_Q16
    ensures Near(x, y, ONE_Q16 * 1.5)
  {
    SquareWithin(x.re - y.re, ONE_Q16);
    SquareWithin(x.im - y.im, ONE_Q16);
  }

  lemma SquareWithin(x: real, b: real)
    requires -b <= x <= b
    ensures x * x <= b * b
  {
    if x < 0.0 {
      SquareMono(-x, b);
      assert (-x) * (-x) == x * x;
    } else {
      SquareMono(x, b);
    }
  }

  /** A rounded table entry is within 0.71 units of the exact one. */
  lemma EntryNear(z: Cx, k: nat)
    requires PrincipalRoot(z) && k < 256
    ensures Near(Exact(Root(k)), Times(ONE_Q16, Power(z, k)), 0.71)
    ensures Norm2(Power(z, k)) == 1.0
  {
    hide Root, Power, Times, PrincipalRoot;
    TableIsRounded(z, k);
    Located(z, 1);
    UnitPower(z, k);
    var x, y := Exact(Root(k)), Times(ONE_Q16, Power(z, k));
    SquareWithin(x.re - y.re, 0.5);
    SquareWithin(x.im - y.im, 0.5);
  }

  /** The rounded product with a table entry, for a second factor within f of the ideal one. */
  lemma TurnedNear(z: Cx, k: nat, o: Complex, ideal: Cx, f: real, m: real)
    requires PrincipalRoot(z) && k < 256 && 0.0 <= m
    requires Near(Exact(o), Times(ONE_Q16, ideal), f) && Norm2(ideal) <= m * m
    ensures 0.0 <= f
    ensures Near(Exact(CMul(Root(k), o)), Times(ONE_Q16, Mul(Power(z, k), ideal)), 1.5 + f + 0.71 * m + 0.71 * f / ONE_Q16)
  {
    hide Mul, Norm2, CMul, Root, Power, Near, Times, Exact, PrincipalRoot;
    var t, u, y, v := Exact(Root(k)), Times(ONE_Q16, Power(z, k)), Exact(o), Times(ONE_Q16, ideal);
    NearPositive(y, v, f);
    EntryNear(z, k);
    TimesNorm(ONE_Q16, Power(z, k));
    TimesNorm(ONE_Q16, ideal);
    SquareOfProduct(ONE_Q16, m);
    NearBound(t, u, 0.71, ONE_Q16);
    NearProduct(t, u, 0.71, 0.71 + ONE_Q16, y, v, f, ONE_Q16 * m);
    RoundingNear(Root(k), o);
    var e := ONE_Q16 * 1.5 + ((0.71 + ONE_Q16) * f + ONE_Q16 * m * 0.71);
    NearTransitive(Times(ONE_Q16, Exact(CMul(Root(k), o))), Mul(t, y), Mul(u, v), ONE_Q16 * 1.5,
                   (0.71 + ONE_Q16) * f + ONE_Q16 * m * 0.71);
    TimesProduct(ONE_Q16, Power(z, k), ideal);
    assert e == ONE_Q16 * (1.5 + f + 0.71 * m + 0.71 * f / ONE_Q16);
    NearDescale(Exact(CMul(Root(k), o)), Times(ONE_Q16, Mul(Power(z, k), ideal)), 1.5 + f + 0.71 * m + 0.71 * f / ONE_Q16);
  }

  lemma ExactSum(u: Complex, t: Complex)
    ensures Exact(Plus(u, t)) == Add(Exact(u), Exact(t)) && Exact(Minus(u, t)) == Sub(Exact(u), Exact(t))
  {
  }

  lemma TimesSum(c: real, x: Cx, y: Cx)
    ensures Times(c, Add(x, y)) == Add(Times(c, x), Times(c, y)) && Times(c, Sub(x, y)) == Sub(Times(c, x), Times(c, y))
  {
    RealAdd(c, x.re, y.re);
    RealAdd(c, x.im, y.im);
    RealSub(c, x.re, y.re);
    RealSub(c, x.im, y.im);
  }

  // ---------- one stage ----------

  /** Every entry is within e of 2^16 times its ideal value, for blocks of n entries. */
  ghost predicate Approximates(s: seq<Complex>, c: seq<int>, z: Cx, n: nat, d: nat, e: real)
    requires 0 < n && |s| == SIZE
  {
    forall b: nat, k: nat {:trigger Ideal(c, z, n, d, b, k)} | b % n == 0 && b + n <= SIZE && k < n ::
      Near(Exact(s[b + k]), Times(ONE_Q16, Ideal(c, z, n, d, b, k)), e)
  }

  ghost predicate SmallInput(c: seq<int>) {
    |c| == SIZE && forall i | 0 <= i < |c| :: -2 <= c[i] <= 2
  }

  lemma IdealBound(c: seq<int>, z: Cx, n: nat, d: nat, b: nat, k: nat)
    requires SmallInput(c) && PrincipalRoot(z) && b < SIZE
    ensures 0 <= d * (2 * k + 1) && Norm2(Ideal(c, z, n, d, b, k)) <= (2.0 * n as real) * (2.0 * n as real)
  {
    hide Mul, Norm2, Power, Strided, Brv8, PrincipalRoot;
    MulMono(0, d, 2 * k + 1);
    Located(z, 1);
    var w := Power(z, d * (2 * k + 1));
    UnitPower(z, d * (2 * k + 1));
    UnitPower(z, Brv8(b));
    StridedBound(c, Brv8(b), d, n, w);
    NormMul(Power(z, Brv8(b)), Strided(c, Brv8(b), d, n, w));
  }

  /** The two outputs of a butterfly. */
  lemma ButterflyNear(z: Cx, tw: nat, u: Complex, o: Complex, even: Cx, odd: Cx, f: real, m: real, e: real)
    requires PrincipalRoot(z) && tw < 256 && 0.0 <= m && Norm2(odd) <= m * m
    requires Near(Exact(u), Times(ONE_Q16, even), f) && Near(Exact(o), Times(ONE_Q16, odd), f)
    requires 2.0 * f + 1.5 + 0.71 * m + 0.71 * f / ONE_Q16 <= e
    ensures var t := CMul(Root(tw), o);
      && Near(Exact(Plus(u, t)), Times(ONE_Q16, Add(even, Mul(Power(z, tw), odd))), e)
      && Near(Exact(Minus(u, t)), Times(ONE_Q16, Sub(even, Mul(Power(z, tw), odd))), e)
  {
    hide Mul, Norm2, CMul, Root, Power, Near, Times, Exact, PrincipalRoot, Add, Sub, Plus, Minus;
    TurnedNear(z, tw, o, odd, f, m);
    var t, turned := CMul(Root(tw), o), Mul(Power(z, tw), odd);
    var g := 1.5 + f + 0.71 * m + 0.71 * f / ONE_Q16;
    ExactSum(u, t);
    TimesSum(ONE_Q16, even, turned);
    NearAdd(Exact(u), Times(ONE_Q16, even), f, Exact(t), Times(ONE_Q16, turned), g);
    NearWider(Exact(Plus(u, t)), Times(ONE_Q16, Add(even, turned)), f + g, e);
    NearWider(Exact(Minus(u, t)), Times(ONE_Q16, Sub(even, turned)), f + g, e);
  }

  /** The stage's numbers: half a block, the stride of its indices, and the error it may add. */
  lemma StageNumbers(stage: nat) returns (d: nat)
    requires 1 <= stage <= 8
    ensures PowerOfTwo(Half(stage)) && Half(stage) * d == 128 && Pow(2, 9 - stage) == 2 * d
    ensures var f, m := ErrorAfter(stage - 1), 2.0 * Half(stage) as real;
      2.0 * f + 1.5 + 0.71 * m + 0.71 * f / ONE_Q16 <= ErrorAfter(stage)
  {
    HalfValue(stage);
    d := Pow(2, 8 - stage);
    PowerValue(8 - stage);
    assert Pow(2, 9 - stage) == 2 * Pow(2, 8 - stage);
  }

  lemma HalfValue(stage: nat)
    requires 1 <= stage <= 8
    ensures stage == 1 ==> Half(stage) == 1
    ensures stage == 2 ==> Half(stage) == 2
    ensures stage == 3 ==> Half(stage) == 4
    ensures stage == 4 ==> Half(stage) == 8
    ensures stage == 5 ==> Half(stage) == 16
    ensures stage == 6 ==> Half(stage) == 32
    ensures stage == 7 ==> Half(stage) == 64
    ensures stage == 8 ==> Half(stage) == 128
  {
    if stage > 1 {
      HalfValue(stage - 1);
    }
  }

  lemma PowerValue(n: nat)
    requires n <= 7
    ensures n == 0 ==> Pow(2, n) == 1
    ensures n == 1 ==> Pow(2, n) == 2
    ensures n == 2 ==> Pow(2, n) == 4
    ensures n == 3 ==> Pow(2, n) == 8
    ensures n == 4 ==> Pow(2, n) == 16
    ensures n == 5 ==> Pow(2, n) == 32
    ensures n == 6 ==> Pow(2, n) == 64
    ensures n == 7 ==> Pow(2, n) == 128
  {
    if n > 0 {
      PowerValue(n - 1);
    }
  }

  /** A multiple of the block length is where a block of the stage starts. */
  lemma BlockOf(b: nat, stage: nat) returns (q: nat)
    requires 1 <= stage <= 8 && 0 < Half(stage) && b % (2 * Half(stage)) == 0 && b + 2 * Half(stage) <= SIZE
    ensures q < BlockCount(stage) && BlockAt(q, stage) == b
  {
    hide BlockCount, Half;
    q := b / (2 * Half(stage));
    DivMod(b, 2 * Half(stage));
    BlocksCover(stage);
    NextBlockFits(q, stage);
  }

  /** A stage turns values for blocks of half the length into values for its blocks. */
  lemma StageNear(s: seq<Complex>, s': seq<Complex>, c: seq<int>, z: Cx, stage: nat, d: nat)
    requires SmallInput(c) && PrincipalRoot(z) && 1 <= stage <= 8 && |s| == |s'| == SIZE && Roots(ShippedRoots())
    requires PowerOfTwo(Half(stage)) && Half(stage) * d == 128 && Pow(2, 9 - stage) == 2 * d
    requires var f, m := ErrorAfter(stage - 1), 2.0 * Half(stage) as real;
      2.0 * f + 1.5 + 0.71 * m + 0.71 * f / ONE_Q16 <= ErrorAfter(stage)
    requires OneStage(s, s', ShippedRoots(), stage) && Approximates(s, c, z, Half(stage), 2 * d, ErrorAfter(stage - 1))
    ensures Approximates(s', c, z, 2 * Half(stage), d, ErrorAfter(stage))
  {
    hide Half, BlockAt, BlockCount, CMul, Root, Near, Times, Exact, PrincipalRoot, Ideal, ErrorAfter, Roots, Mul, Power, Pow;
    var h := Half(stage);
    forall b: nat, k: nat {:trigger Ideal(c, z, 2 * h, d, b, k)} | b % (2 * h) == 0 && b + 2 * h <= SIZE && k < 2 * h
      ensures Near(Exact(s'[b + k]), Times(ONE_Q16, Ideal(c, z, 2 * h, d, b, k)), ErrorAfter(stage))
    {
      var q := BlockOf(b, stage);
      assert BlockDone(s, s', ShippedRoots(), stage, BlockAt(q, stage), h);
      EntryOfBlock(s, s', c, z, stage, d, b, if k < h then k else k - h);
    }
  }

  lemma EntryOfBlock(s: seq<Complex>, s': seq<Complex>, c: seq<int>, z: Cx, stage: nat, d: nat, b: nat, k: nat)
    requires SmallInput(c) && PrincipalRoot(z) && 1 <= stage <= 8 && |s| == |s'| == SIZE && Roots(ShippedRoots())
    requires PowerOfTwo(Half(stage)) && Half(stage) * d == 128 && Pow(2, 9 - stage) == 2 * d
    requires var f, m := ErrorAfter(stage - 1), 2.0 * Half(stage) as real;
      2.0 * f + 1.5 + 0.71 * m + 0.71 * f / ONE_Q16 <= ErrorAfter(stage)
    requires b % (2 * Half(stage)) == 0 && b + 2 * Half(stage) <= SIZE && k < Half(stage)
    requires Approximates(s, c, z, Half(stage), 2 * d, ErrorAfter(stage - 1))
    requires BlockDone(s, s', ShippedRoots(), stage, b, Half(stage))
    ensures Near(Exact(s'[b + k]), Times(ONE_Q16, Ideal(c, z, 2 * Half(stage), d, b, k)), ErrorAfter(stage))
    ensures Near(Exact(s'[b + k + Half(stage)]), Times(ONE_Q16, Ideal(c, z, 2 * Half(stage), d, b, k + Half(stage))), ErrorAfter(stage))
  {
    hide Half, CMul, Root, Near, Times, Exact, Ideal, ErrorAfter, Roots, Mul, Power, Pow, Add, Sub, Norm2, Plus, Minus,
         BlockDone, ShippedRoots, PowerOfTwo, PrincipalRoot, SmallInput, Approximates;
    var h := Half(stage);
    DoneAt(s, s', stage, d, b, k);
    HalfMultiple(b, h);
    RootOfUnity(z);
    ApproximatesAt(s, c, z, h, 2 * d, ErrorAfter(stage - 1), b, k);
    ApproximatesAt(s, c, z, h, 2 * d, ErrorAfter(stage - 1), b + h, k);
    var even, odd := Ideal(c, z, h, 2 * d, b, k), Ideal(c, z, h, 2 * d, b + h, k);
    IdealStep(c, z, h, d, b, k);
    IdealBound(c, z, h, 2 * d, b + h, k);
    ButterflyNear(z, 2 * (d * k), s[b + k], s[b + k + h], even, odd, ErrorAfter(stage - 1), 2.0 * h as real, ErrorAfter(stage));
  }

  lemma ApproximatesAt(s: seq<Complex>, c: seq<int>, z: Cx, n: nat, d: nat, e: real, b: nat, k: nat)
    requires 0 < n && |s| == SIZE && Approximates(s, c, z, n, d, e) && b % n == 0 && b + n <= SIZE && k < n
    ensures Near(Exact(s[b + k]), Times(ONE_Q16, Ideal(c, z, n, d, b, k)), e)
  {
  }

  lemma RootOfUnity(z: Cx)
    requires PrincipalRoot(z)
    ensures Power(z, 256) == Cx(-1.0, 0.0)
  {
  }

  lemma DoneAt(s: seq<Complex>, s': seq<Complex>, stage: nat, d: nat, b: nat, k: nat)
    requires 1 <= stage <= 8 && |s| == |s'| == SIZE && Roots(ShippedRoots()) && Pow(2, 9 - stage) == 2 * d
    requires b + 2 * Half(stage) <= SIZE && k < Half(stage) && BlockDone(s, s', ShippedRoots(), stage, b, Half(stage))
    ensures 2 * (d * k) < 256
    ensures var h, t := Half(stage), CMul(Root(2 * (d * k)), s[b + k + Half(stage)]);
      s'[b + k] == Plus(s[b + k], t) && s'[b + k + h] == Minus(s[b + k], t)
  {
    hide Half, CMul, Root, Roots, Pow, Plus, Minus;
    TwiddleInTable(k, stage);
    assert k * (2 * d) == 2 * (d * k);
    assert s'[b + k] == Even(s, ShippedRoots(), stage, b, k);
  }

  lemma HalfMultiple(b: nat, h: nat)
    requires 0 < h && b % (2 * h) == 0
    ensures b % h == 0 && (b + h) % h == 0
  {
    DivMod(b, 2 * h);
    var q := b / (2 * h);
    assert b == (2 * q) * h;
    DivModUnique(b, h, 2 * q, 0);
    assert b + h == (2 * q + 1) * h;
    DivModUnique(b + h, h, 2 * q + 1, 0);
  }

  // ---------- the load and the whole run ----------

  lemma ScaledNear(c: int, entry: Complex, x: Cx, p: Cx)
    requires -2 <= c <= 2 && Near(Exact(entry), Times(ONE_Q16, x), 0.71)
    requires p == Mul(x, Cx(c as real, 0.0))
    ensures Near(Exact(Scaled(c, entry)), Times(ONE_Q16, p), 1.42)
  {
    var w := Cx(c as real, 0.0);
    SquareWithin(c as real, 2.0);
    NearScale(w, Exact(entry), Times(ONE_Q16, x), 0.71, 2.0);
    MulCommutes(w, Times(ONE_Q16, x));
    TimesMul(ONE_Q16, x, w);
    assert Exact(Scaled(c, entry)) == Mul(w, Exact(entry));
  }

  /** The loaded array holds the blocks of length one. */
  lemma LoadNear(s: seq<Complex>, c: seq<int>, z: Cx)
    requires SmallInput(c) && PrincipalRoot(z) && |s| == SIZE
    requires forall j: nat | j < SIZE :: s[j] == Scaled(c[Brv8(j)], ShippedRoots()[Brv8(j)])
    ensures Approximates(s, c, z, 1, 256, ErrorAfter(0))
  {
    hide Brv8, Scaled, Power, Root, PrincipalRoot, Near, Exact, Times, Ideal, ErrorAfter, SmallInput, ShippedRoots;
    forall b: nat, k: nat {:trigger Ideal(c, z, 1, 256, b, k)} | b % 1 == 0 && b + 1 <= SIZE && k < 1
      ensures Near(Exact(s[b + k]), Times(ONE_Q16, Ideal(c, z, 1, 256, b, k)), ErrorAfter(0))
    {
      EntryLoaded(s[b], c, z, b);
    }
  }

  lemma EntryLoaded(x: Complex, c: seq<int>, z: Cx, b: nat)
    requires SmallInput(c) && PrincipalRoot(z) && b < SIZE && x == Scaled(c[Brv8(b)], ShippedRoots()[Brv8(b)])
    ensures Near(Exact(x), Times(ONE_Q16, Ideal(c, z, 1, 256, b, 0)), ErrorAfter(0))
  {
    hide Brv8, Scaled, Power, Root, PrincipalRoot, Near, Exact, Times, Mul, Strided;
    var i := Brv8(b);
    EntryNear(z, i);
    SingleTerm(c, i, Power(z, 256));
    ScaledNear(c[i], Root(i), Power(z, i), Ideal(c, z, 1, 256, b, 0));
  }

  lemma SingleTerm(c: seq<int>, i: nat, w: Cx)
    requires i < |c|
    ensures Strided(c, i, 256, 1, w) == Cx(c[i] as real, 0.0)
  {
    assert Strided(c, i + 256, 256, 0, w) == ZERO;
    assert Mul(w, ZERO) == ZERO;
  }

  lemma {:induction false} RunNear(trace: seq<seq<Complex>>, c: seq<int>, z: Cx, stage: nat) returns (n: nat, d: nat)
    requires SmallInput(c) && PrincipalRoot(z) && Roots(ShippedRoots()) && Run(trace, ShippedRoots()) && stage < |trace|
    requires forall j: nat | j < SIZE :: trace[0][j] == Scaled(c[Brv8(j)], ShippedRoots()[Brv8(j)])
    ensures 0 < n && n * d == 256 && (stage < 8 ==> n == Half(stage + 1)) && (stage == 8 ==> n == 256)
    ensures Approximates(trace[stage], c, z, n, d, ErrorAfter(stage))
  {
    hide Brv8, Scaled, PrincipalRoot, OneStage, Approximates, Half, Roots, Pow, SmallInput, ErrorAfter;
    FirstHalves();
    if stage == 0 {
      LoadNear(trace[0], c, z);
      n, d := 1, 256;
    } else {
      var n', d' := RunNear(trace, c, z, stage - 1);
      d := StageNumbers(stage);
      n := 2 * Half(stage);
      StrideDoubles(Half(stage), d, d');
      StageNear(trace[stage - 1], trace[stage], c, z, stage, d);
      NextHalf(stage);
    }
  }

  lemma FirstHalves()
    ensures Half(1) == 1
  {
  }

  lemma NextHalf(stage: nat)
    requires 1 <= stage <= 8
    ensures Half(stage + 1) == 2 * Half(stage) && (stage == 8 ==> 2 * Half(stage) == 256)
  {
    HalfValue(stage);
  }

  lemma StrideDoubles(h: nat, d: nat, d': nat)
    requires 0 < h && h * d == 128 && h * d' == 256
    ensures d' == 2 * d
  {
    assert h * (2 * d) == 256;
    if d' > 2 * d {
      MulStrict(2 * d, d', h);
    } else if d' < 2 * d {
      MulStrict(d', 2 * d, h);
    }
  }

  /** Entry j of the transform is 2^16 times the value of the input at the principal root to the power 2 j + 1, within
      2212 units, which is less than a thirtieth. */
  lemma TransformEvaluates(trace: seq<seq<Complex>>, c: seq<int>, z: Cx, j: nat)
    requires SmallInput(c) && PrincipalRoot(z) && Roots(ShippedRoots()) && Run(trace, ShippedRoots()) && |trace| == 9 && j < SIZE
    requires forall j: nat | j < SIZE :: trace[0][j] == Scaled(c[Brv8(j)], ShippedRoots()[Brv8(j)])
    ensures Near(Exact(trace[8][j]), Times(65536.0, Evaluate(c, Power(z, 2 * j + 1))), 2212.0)
  {
    hide Scaled, PrincipalRoot, Roots, Run, Near, Exact, Times, Half, Strided, Evaluate, Mul, Brv8;
    var n, d := RunNear(trace, c, z, 8);
    var w := Power(z, 2 * j + 1);
    assert d == 1;
    RunShape(trace, 8);
    var ideal := Ideal(c, z, 256, 1, 0, j);
    assert Near(Exact(trace[8][0 + j]), Times(ONE_Q16, ideal), ErrorAfter(8));
    FirstIndex();
    assert c[0..] == c;
    StridedIsEvaluate(c, 0, w);
    OneMul(Evaluate(c, w));
  }

  lemma RunShape(trace: seq<seq<Complex>>, stage: nat)
    requires Roots(ShippedRoots()) && Run(trace, ShippedRoots()) && stage < |trace|
    ensures |trace[stage]| == SIZE
  {
  }

  lemma FirstIndex()
    ensures Brv8(0) == 0
  {
  }

  // crypto_haetae_fft_bitrev and crypto_haetae_fft with their table, on the coefficients key generation meets. The number
  // z of the second promise is exp(-i pi / 256).
  method ShippedTransform(coeffs: seq<int>) returns (data: array<Complex>)
    requires |coeffs| == SIZE && forall i | 0 <= i < SIZE :: -2 <= coeffs[i] <= 2
    ensures fresh(data) && data.Length == SIZE && AllWithin(data[..], COMPONENT_BOUND)
    ensures forall z: Cx, j: nat {:trigger Power(z, 2 * j + 1)} |
      Power(z, 256) == Cx(-1.0, 0.0) && 0.9998 < z.re && z.im < 0.0 && j < SIZE ::
      var value := Evaluate(coeffs, Power(z, 2 * j + 1));
      && -2212.0 <= data[j].re as real - 65536.0 * value.re <= 2212.0
      && -2212.0 <= data[j].im as real - 65536.0 * value.im <= 2212.0
  {
    hide Scaled, Roots, Run, Near, Evaluate, AllWithin, Power, Brv8;
    ShippedRootsValid();
    data := new Complex[SIZE](i => Complex(0, 0));
    BitReversedLoad(data, coeffs, ShippedRoots());
    var trace := Transform(data, ShippedRoots());
    forall z: Cx, j: nat {:trigger Power(z, 2 * j + 1)} |
      Power(z, 256) == Cx(-1.0, 0.0) && 0.9998 < z.re && z.im < 0.0 && j < SIZE
      ensures var value := Evaluate(coeffs, Power(z, 2 * j + 1));
        && -2212.0 <= data[j].re as real - 65536.0 * value.re <= 2212.0
        && -2212.0 <= data[j].im as real - 65536.0 * value.im <= 2212.0
    {
      TransformEvaluates(trace, coeffs, z, j);
      NearComponents(Exact(data[j]), Times(65536.0, Evaluate(coeffs, Power(z, 2 * j + 1))), 2212.0);
    }
  }
}
