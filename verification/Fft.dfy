/** The fixed-point FFT of key generation, with the range of every stored component. */
module Fft {
  import opened Arith
  import opened BitReversal
  import ReversalTable
  import opened RootTable

  const INPUT_BOUND := 131072
  const COMPONENT_BOUND := 859963392       // 3^8 * 131072
  const SQABS_BOUND := 22568879259648

  ghost predicate AllWithin(s: seq<Complex>, bound: int) {
    forall i | 0 <= i < |s| :: s[i].Within(bound)
  }

  /** A table of roots in Q16. */
  ghost predicate Roots(roots: seq<Complex>) {
    |roots| == SIZE && AllWithin(roots, 65536)
  }

  // ---------- fixed-point products ----------

  /** crypto_haetae_q16_mul_wide. */
  function Q16Mul(x: int, y: int): int {
    (x * y + 32768) / 65536
  }

  /** crypto_haetae_complex_mul. */
  function CMul(x: Complex, y: Complex): Complex {
    Complex(Q16Mul(x.re, y.re) - Q16Mul(x.im, y.im), Q16Mul(x.re, y.im) + Q16Mul(x.im, y.re))
  }

  function Plus(u: Complex, t: Complex): Complex {
    Complex(u.re + t.re, u.im + t.im)
  }

  function Minus(u: Complex, t: Complex): Complex {
    Complex(u.re - t.re, u.im - t.im)
  }

  /** Rounding never takes a product with a root component beyond the other factor. */
  lemma Q16Bound(x: int, y: int, bound: int)
    requires -65536 <= x <= 65536 && -bound <= y <= bound
    ensures -bound <= Q16Mul(x, y) <= bound
  {
    var u, w := if x < 0 then -x else x, if y < 0 then -y else y;
    MulBound(u, 65536, w, bound);
    assert x * y == u * w || x * y == -(u * w);
  }

  lemma CMulBound(x: Complex, y: Complex, bound: int)
    requires x.Within(65536) && y.Within(bound)
    ensures CMul(x, y).Within(2 * bound)
  {
    Q16Bound(x.re, y.re, bound);
    Q16Bound(x.im, y.im, bound);
    Q16Bound(x.re, y.im, bound);
    Q16Bound(x.im, y.re, bound);
  }

  /** 65536 times a rounded product is within half of that of the product. */
  lemma Q16Exact(x: int, y: int)
    ensures x * y - 32768 < 65536 * Q16Mul(x, y) <= x * y + 32768
  {
    DivMod(x * y + 32768, 65536);
  }

  /** The complex product with 16 fractional bits, within the two roundings of each component. */
  lemma CMulExact(x: Complex, y: Complex)
    ensures -65536 <= 65536 * CMul(x, y).re - Product(x, y).re <= 65536
    ensures -65536 <= 65536 * CMul(x, y).im - Product(x, y).im <= 65536
  {
    Q16Exact(x.re, y.re);
    Q16Exact(x.im, y.im);
    Q16Exact(x.re, y.im);
    Q16Exact(x.im, y.re);
  }

  // ---------- bit-reversed load ----------

  function Scaled(c: int, root: Complex): Complex {
    Complex(c * root.re, c * root.im)
  }

  lemma ScaledBound(c: int, root: Complex)
    requires -2 <= c <= 2 && root.Within(65536)
    ensures Scaled(c, root).Within(INPUT_BOUND)
  {
    match c
    case -2 =>
    case -1 =>
    case 0 =>
    case 1 =>
    case 2 =>
  }

  // crypto_haetae_fft_bitrev.
  method BitReversedLoad(r: array<Complex>, coeffs: seq<int>, roots: seq<Complex>)
    requires r.Length == |coeffs| == SIZE && Roots(roots) && forall i | 0 <= i < SIZE :: -2 <= coeffs[i] <= 2
    modifies r
    ensures forall j: nat | j < SIZE :: r[j] == Scaled(coeffs[Brv8(j)], roots[Brv8(j)])
    ensures AllWithin(r[..], INPUT_BOUND)
  {
    hide Brv8, Scaled, ReversalTable.Entry;
    for i := 0 to SIZE
      invariant forall j: nat | j < SIZE && Brv8(j) < i :: r[j] == Scaled(coeffs[Brv8(j)], roots[Brv8(j)])
    {
      Brv8Involution(i);
      ReversalTable.TableReverses(i);
      ghost var s := r[..];
      r[ReversalTable.Entry(i)] := Scaled(coeffs[i], roots[i]);
      forall j: nat | j < SIZE && Brv8(j) < i + 1
        ensures r[j] == Scaled(coeffs[Brv8(j)], roots[Brv8(j)])
      {
        Brv8Involution(j);
        if j != Brv8(i) {
          assert Brv8(j) != i;
          assert r[j] == s[j];
        }
      }
    }
    forall j: nat | j < SIZE
      ensures r[j].Within(INPUT_BOUND)
    {
      ScaledBound(coeffs[Brv8(j)], roots[Brv8(j)]);
    }
  }

  // ---------- the stages ----------

  /** Half the block length of a stage: 1, 2, 4, ..., 128. */
  function Half(stage: nat): nat {
    if stage <= 1 then 1 else 2 * Half(stage - 1)
  }

  /** k << (8 - stage + 1). */
  function Twiddle(k: nat, stage: nat): nat
    requires 1 <= stage <= 8
  {
    PowPositive(2, 9 - stage);
    MulMono(0, k, Pow(2, 9 - stage));
    k * Pow(2, 9 - stage)
  }

  lemma {:induction false} HalfTimes(stage: nat)
    requires 1 <= stage <= 8
    ensures Half(stage) * Pow(2, 9 - stage) == SIZE && 1 <= Half(stage) <= 128 && SIZE % (2 * Half(stage)) == 0
  {
    if stage == 1 {
      Pow2Values();
    } else {
      HalfTimes(stage - 1);
      var p := Pow(2, 9 - stage);
      assert Pow(2, 10 - stage) == 2 * p;
      assert Half(stage) * p == Half(stage - 1) * (2 * p);
      PowPositive(2, 8 - stage);
      assert Pow(2, 9 - stage) == 2 * Pow(2, 8 - stage);
      var q := Pow(2, 8 - stage);
      assert (2 * Half(stage)) * q == SIZE by {
        assert Half(stage) * (2 * q) == (2 * Half(stage)) * q;
      }
      DivModUnique(SIZE, 2 * Half(stage), q, 0);
      if Half(stage) > 128 {
        MulMono(1, q, 2 * Half(stage));
      }
    }
  }

  lemma TwiddleInTable(k: nat, stage: nat)
    requires 1 <= stage <= 8 && k < Half(stage)
    ensures Twiddle(k, stage) < SIZE
  {
    HalfTimes(stage);
    PowPositive(2, 9 - stage);
    MulStrict(k, Half(stage), Pow(2, 9 - stage));
  }

  /** What the butterfly at k of the block leaves in its two entries. */
  ghost function Even(s: seq<Complex>, roots: seq<Complex>, stage: nat, block: nat, k: nat): Complex
    requires Roots(roots) && 1 <= stage <= 8 && k < Half(stage) && block + 2 * Half(stage) <= |s|
  {
    TwiddleInTable(k, stage);
    Plus(s[block + k], CMul(roots[Twiddle(k, stage)], s[block + k + Half(stage)]))
  }

  ghost function Odd(s: seq<Complex>, roots: seq<Complex>, stage: nat, block: nat, k: nat): Complex
    requires Roots(roots) && 1 <= stage <= 8 && k < Half(stage) && block + 2 * Half(stage) <= |s|
  {
    TwiddleInTable(k, stage);
    Minus(s[block + k], CMul(roots[Twiddle(k, stage)], s[block + k + Half(stage)]))
  }

  /** Each butterfly at most triples the range. */
  lemma ButterflyBound(s: seq<Complex>, roots: seq<Complex>, stage: nat, block: nat, k: nat, bound: int)
    requires Roots(roots) && 1 <= stage <= 8 && k < Half(stage) && block + 2 * Half(stage) <= |s| && AllWithin(s, bound)
    ensures Even(s, roots, stage, block, k).Within(3 * bound) && Odd(s, roots, stage, block, k).Within(3 * bound)
  {
    hide CMul;
    TwiddleInTable(k, stage);
    CMulBound(roots[Twiddle(k, stage)], s[block + k + Half(stage)], bound);
  }

  /** Every butterfly of the block up to end has been done, from the entries of s. */
  ghost predicate BlockDone(s: seq<Complex>, s': seq<Complex>, roots: seq<Complex>, stage: nat, block: nat, end: nat)
    requires Roots(roots) && 1 <= stage <= 8 && end <= Half(stage) && block + 2 * Half(stage) <= |s| == |s'|
  {
    forall k | 0 <= k < end ::
      s'[block + k] == Even(s, roots, stage, block, k) && s'[block + k + Half(stage)] == Odd(s, roots, stage, block, k)
  }

  ghost predicate Kept(s: seq<Complex>, s': seq<Complex>, lo: int, hi: int) {
    |s| == |s'| && forall i | 0 <= i < |s| && !(lo <= i < hi) :: s'[i] == s[i]
  }

  // The innermost loop: the butterflies of one block.
  method Butterflies(data: array<Complex>, roots: seq<Complex>, stage: nat, block: nat)
    requires Roots(roots) && 1 <= stage <= 8 && block + 2 * Half(stage) <= data.Length
    modifies data
    ensures BlockDone(old(data[..]), data[..], roots, stage, block, Half(stage))
    ensures Kept(old(data[..]), data[..], block, block + 2 * Half(stage))
  {
    hide CMul, Half, Twiddle;
    var half := Half(stage);
    ghost var s := data[..];
    for k := 0 to half
      invariant BlockDone(s, data[..], roots, stage, block, k)
      invariant forall i | 0 <= i < |s| && !(block <= i < block + k) && !(block + half <= i < block + half + k) :: data[i] == s[i]
    {
      TwiddleInTable(k, stage);
      ghost var s1 := data[..];
      var even, odd := block + k, block + k + half;
      var u := data[even];
      var t := CMul(roots[Twiddle(k, stage)], data[odd]);
      data[even] := Plus(u, t);
      data[odd] := Minus(u, t);
      MoreDone(s, s1, data[..], roots, stage, block, k);
    }
  }

  lemma MoreDone(s: seq<Complex>, s1: seq<Complex>, s2: seq<Complex>, roots: seq<Complex>, stage: nat, block: nat, k: nat)
    requires Roots(roots) && 1 <= stage <= 8 && k < Half(stage) && block + 2 * Half(stage) <= |s| == |s1| == |s2|
    requires BlockDone(s, s1, roots, stage, block, k)
    requires s2 == s1[block + k := Even(s, roots, stage, block, k)][block + k + Half(stage) := Odd(s, roots, stage, block, k)]
    ensures BlockDone(s, s2, roots, stage, block, k + 1)
  {
    hide Half, Even, Odd;
  }

  /** Where block b of a stage starts. */
  function BlockAt(b: nat, stage: nat): nat {
    b * (2 * Half(stage))
  }

  /** The first count blocks of the stage are done and the rest is as it was. */
  ghost predicate StageDone(s: seq<Complex>, s': seq<Complex>, roots: seq<Complex>, stage: nat, count: nat)
    requires Roots(roots) && 1 <= stage <= 8 && BlockAt(count, stage) <= |s| == |s'|
  {
    && (forall b: nat {:trigger BlockAt(b, stage)} | b < count :: BlockAt(b, stage) + 2 * Half(stage) <= |s|
          && BlockDone(s, s', roots, stage, BlockAt(b, stage), Half(stage)))
    && (forall i | BlockAt(count, stage) <= i < |s| :: s'[i] == s[i])
  }

  lemma BlockOrder(b: nat, c: nat, stage: nat)
    requires b < c
    ensures BlockAt(b, stage) + 2 * Half(stage) <= BlockAt(c, stage)
    ensures BlockAt(b + 1, stage) == BlockAt(b, stage) + 2 * Half(stage)
  {
    hide Half;
    MulMono(b + 1, c, 2 * Half(stage));
    assert (b + 1) * (2 * Half(stage)) == b * (2 * Half(stage)) + 2 * Half(stage);
  }

  lemma BlockMore(s: seq<Complex>, s1: seq<Complex>, s2: seq<Complex>, roots: seq<Complex>, stage: nat, count: nat)
    requires Roots(roots) && 1 <= stage <= 8 && BlockAt(count, stage) + 2 * Half(stage) <= |s| == |s1|
    requires StageDone(s, s1, roots, stage, count)
    requires Kept(s1, s2, BlockAt(count, stage), BlockAt(count, stage) + 2 * Half(stage))
    requires BlockDone(s1, s2, roots, stage, BlockAt(count, stage), Half(stage))
    ensures BlockAt(count + 1, stage) <= |s| && StageDone(s, s2, roots, stage, count + 1)
  {
    hide Half, BlockAt, Twiddle, CMul;
    BlockOrder(count, count + 1, stage);
    forall b: nat | b < count + 1
      ensures BlockAt(b, stage) + 2 * Half(stage) <= |s| && BlockDone(s, s2, roots, stage, BlockAt(b, stage), Half(stage))
    {
      if b < count {
        BlockOrder(b, count, stage);
        BlockSame(s, s, s1, s2, roots, stage, BlockAt(b, stage));
      } else {
        BlockSame(s1, s, s2, s2, roots, stage, BlockAt(b, stage));
      }
    }
  }

  /** Whether a block is done depends on its own entries only. */
  lemma BlockSame(s: seq<Complex>, t: seq<Complex>, s': seq<Complex>, t': seq<Complex>, roots: seq<Complex>, stage: nat, block: nat)
    requires Roots(roots) && 1 <= stage <= 8 && block + 2 * Half(stage) <= |s| == |t| == |s'| == |t'|
    requires BlockDone(s, s', roots, stage, block, Half(stage))
    requires forall i | block <= i < block + 2 * Half(stage) :: t[i] == s[i] && t'[i] == s'[i]
    ensures BlockDone(t, t', roots, stage, block, Half(stage))
  {
    hide Half, Twiddle, CMul;
    forall k | 0 <= k < Half(stage)
      ensures t'[block + k] == Even(t, roots, stage, block, k) && t'[block + k + Half(stage)] == Odd(t, roots, stage, block, k)
    {
      assert s'[block + k] == Even(s, roots, stage, block, k);
    }
  }

  function BlockCount(stage: nat): nat
    requires 1 <= stage <= 8
  {
    PowPositive(2, 8 - stage);
    Pow(2, 8 - stage)
  }

  lemma BlocksCover(stage: nat)
    requires 1 <= stage <= 8
    ensures BlockAt(BlockCount(stage), stage) == SIZE && BlockAt(0, stage) == 0 && 1 <= Half(stage)
  {
    HalfTimes(stage);
    var q := Pow(2, 8 - stage);
    assert Pow(2, 9 - stage) == 2 * q;
    assert q * (2 * Half(stage)) == Half(stage) * (2 * q);
  }

  lemma NextBlockFits(count: nat, stage: nat)
    requires 1 <= stage <= 8 && BlockAt(count, stage) < SIZE
    ensures BlockAt(count, stage) + 2 * Half(stage) <= SIZE && count < BlockCount(stage)
  {
    hide BlockAt, BlockCount, Half;
    BlocksCover(stage);
    if count >= BlockCount(stage) {
      if count > BlockCount(stage) {
        BlockOrder(BlockCount(stage), count, stage);
      }
    } else {
      BlockOrder(count, BlockCount(stage), stage);
    }
  }

  lemma StageStart(s: seq<Complex>, roots: seq<Complex>, stage: nat)
    requires Roots(roots) && 1 <= stage <= 8
    ensures StageDone(s, s, roots, stage, 0)
  {
  }

  lemma StageFits(count: nat, stage: nat)
    requires 1 <= stage <= 8 && BlockAt(count, stage) >= SIZE && count <= BlockCount(stage)
    ensures count == BlockCount(stage)
  {
    hide BlockAt, BlockCount, Half;
    BlocksCover(stage);
    if count < BlockCount(stage) {
      BlockOrder(count, BlockCount(stage), stage);
    }
  }

  // The middle loop: the blocks of one stage.
  method Stage(data: array<Complex>, roots: seq<Complex>, stage: nat)
    requires Roots(roots) && 1 <= stage <= 8 && data.Length == SIZE
    modifies data
    ensures OneStage(old(data[..]), data[..], roots, stage)
  {
    hide Half, BlockAt, BlockCount, BlockDone, Kept;
    var m := 2 * Half(stage);
    var block: nat := 0;
    ghost var s, count := data[..], 0;
    BlocksCover(stage);
    StageStart(s, roots, stage);
    while block < SIZE
      invariant block == BlockAt(count, stage) <= SIZE && count <= BlockCount(stage)
      invariant StageDone(s, data[..], roots, stage, count)
      decreases SIZE - block
    {
      NextBlockFits(count, stage);
      BlockOrder(count, count + 1, stage);
      ghost var s1 := data[..];
      Butterflies(data, roots, stage, block);
      BlockMore(s, s1, data[..], roots, stage, count);
      block := block + m;
      count := count + 1;
    }
    StageFits(count, stage);
  }

  /** An entry belongs to a butterfly of one of the blocks. */
  lemma EntryOf(i: nat, stage: nat) returns (b: nat, k: nat)
    requires 1 <= stage <= 8 && i < SIZE
    ensures b < BlockCount(stage) && BlockAt(b, stage) + 2 * Half(stage) <= SIZE && k < Half(stage)
    ensures i == BlockAt(b, stage) + k || i == BlockAt(b, stage) + k + Half(stage)
  {
    hide BlockCount, Half;
    BlocksCover(stage);
    var m := 2 * Half(stage);
    DivMod(i, m);
    b := i / m;
    var pos := i % m;
    k := if pos < Half(stage) then pos else pos - Half(stage);
    NextBlockFits(b, stage);
  }

  /** A whole stage at most triples the range. */
  lemma StageBound(s: seq<Complex>, s': seq<Complex>, roots: seq<Complex>, stage: nat, bound: int)
    requires Roots(roots) && 1 <= stage <= 8 && |s| == |s'| == SIZE && OneStage(s, s', roots, stage) && AllWithin(s, bound)
    ensures AllWithin(s', 3 * bound)
  {
    hide Half, BlockAt, BlockCount, Even, Odd;
    forall i | 0 <= i < SIZE
      ensures s'[i].Within(3 * bound)
    {
      var b, k := EntryOf(i, stage);
      assert BlockDone(s, s', roots, stage, BlockAt(b, stage), Half(stage));
      ButterflyBound(s, roots, stage, BlockAt(b, stage), k, bound);
    }
  }

  /** data is what stage makes of mid. */
  ghost predicate OneStage(mid: seq<Complex>, data: seq<Complex>, roots: seq<Complex>, stage: nat)
    requires Roots(roots) && 1 <= stage <= 8 && |mid| == |data| == SIZE
  {
    BlockAt(BlockCount(stage), stage) == SIZE && StageDone(mid, data, roots, stage, BlockCount(stage))
  }

  /** The array before the first stage and after each of them. */
  ghost predicate Run(trace: seq<seq<Complex>>, roots: seq<Complex>)
    requires Roots(roots)
  {
    && 1 <= |trace| <= 9 && (forall i | 0 <= i < |trace| :: |trace[i]| == SIZE)
    && forall i | 1 <= i < |trace| :: OneStage(trace[i - 1], trace[i], roots, i)
  }

  lemma RunMore(trace: seq<seq<Complex>>, data: seq<Complex>, roots: seq<Complex>)
    requires Roots(roots) && Run(trace, roots) && |trace| <= 8 && |data| == SIZE
    requires OneStage(trace[|trace| - 1], data, roots, |trace|)
    ensures Run(trace + [data], roots)
  {
    hide OneStage, Roots;
  }

  /** After stage s every component is within 3^s times the input bound. */
  lemma {:induction false} ComponentBound(trace: seq<seq<Complex>>, roots: seq<Complex>, stage: nat)
    requires Roots(roots) && Run(trace, roots) && stage < |trace| && AllWithin(trace[0], INPUT_BOUND)
    ensures AllWithin(trace[stage], Pow(3, stage) * INPUT_BOUND)
  {
    hide OneStage, AllWithin, Roots, Pow;
    PowerOfThree(stage);
    if stage > 0 {
      ComponentBound(trace, roots, stage - 1);
      StageBound(trace[stage - 1], trace[stage], roots, stage, Pow(3, stage - 1) * INPUT_BOUND);
    }
  }

  lemma PowerOfThree(n: nat)
    ensures if n == 0 then Pow(3, n) == 1 else Pow(3, n) == 3 * Pow(3, n - 1)
  {
  }

  // crypto_haetae_fft.
  method Transform(data: array<Complex>, roots: seq<Complex>) returns (ghost trace: seq<seq<Complex>>)
    requires Roots(roots) && data.Length == SIZE && AllWithin(data[..], INPUT_BOUND)
    modifies data
    ensures Run(trace, roots) && |trace| == 9 && trace[0] == old(data[..]) && trace[8] == data[..]
    ensures forall s: nat | s <= 8 :: AllWithin(trace[s], Pow(3, s) * INPUT_BOUND)
    ensures AllWithin(data[..], COMPONENT_BOUND)
  {
    hide OneStage, AllWithin, Roots, Pow;
    trace := [data[..]];
    for stage := 1 to 9
      invariant |trace| == stage && Run(trace, roots) && trace[0] == old(data[..]) && trace[stage - 1] == data[..]
    {
      Stage(data, roots, stage);
      RunMore(trace, data[..], roots);
      trace := trace + [data[..]];
    }
    forall s: nat | s <= 8
      ensures AllWithin(trace[s], Pow(3, s) * INPUT_BOUND)
    {
      ComponentBound(trace, roots, s);
    }
    StoredFits(8);
  }

  /** The ranges of all stages fit 32-bit storage. */
  predicate ThirdPowers(stages: nat) {
    Pow(3, stages) * INPUT_BOUND <= COMPONENT_BOUND < 0x8000_0000
  }

  lemma StoredFits(stages: nat)
    requires stages <= 8
    ensures ThirdPowers(stages) && Pow(3, 0) == 1 && Pow(3, 8) * INPUT_BOUND == COMPONENT_BOUND
  {
    assert Pow(3, 8) == 6561;
    PowMono(3, stages, 8);
  }

  /** crypto_haetae_complex_fp_sqabs. */
  function SquaredMagnitude(x: Complex): int {
    Q16Mul(x.re, x.re) + Q16Mul(x.im, x.im)
  }

  /** 65536 times the computed squared magnitude is within the two roundings of the exact one. */
  lemma MagnitudeExact(x: Complex)
    ensures -65536 <= 65536 * SquaredMagnitude(x) - (x.re * x.re + x.im * x.im) <= 65536
  {
    Q16Exact(x.re, x.re);
    Q16Exact(x.im, x.im);
  }

  /** The squared magnitude of any transformed entry is within the declared bound, and no sum of ten of them reaches 2^63. */
  lemma MagnitudeBound(x: Complex)
    requires x.Within(COMPONENT_BOUND)
    ensures SQABS_BOUND == 2 * ((COMPONENT_BOUND * COMPONENT_BOUND + 32768) / 65536)
    ensures 0 <= SquaredMagnitude(x) <= SQABS_BOUND && 10 * SQABS_BOUND < 0x8000_0000_0000_0000
  {
    SquareBound(x.re);
    SquareBound(x.im);
  }

  lemma SquareBound(c: int)
    requires -COMPONENT_BOUND <= c <= COMPONENT_BOUND
    ensures 0 <= Q16Mul(c, c) <= SQABS_BOUND / 2
  {
    var u := if c < 0 then -c else c;
    MulBound(u, COMPONENT_BOUND, u, COMPONENT_BOUND);
    assert c * c == u * u;
  }
}
