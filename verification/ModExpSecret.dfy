/** Exponentiation with a fixed schedule: both candidates of every exponent bit are computed and one is selected. */
module ModExpSecret {
  import opened Arith
  import opened Limbs
  import opened Karatsuba
  import opened LongDivision
  import opened Montgomery
  import opened ModExp

  datatype Result<T> = Success(value: T) | InvalidArgument

  // ---------- exponent bits ----------

  lemma {:induction false} WithoutIsShift(a: nat, i: nat)
    ensures 0 < Pow(2, i) && Without(a, i) == a / Pow(2, i)
  {
    if i > 0 {
      WithoutIsShift(a, i - 1);
      HalfQuotient(a, Pow(2, i - 1), Without(a, i - 1));
    }
  }

  lemma HalfQuotient(a: nat, w: int, q: int)
    requires 0 < w && q == a / w
    ensures q / 2 == a / (2 * w)
  {
    DivMod(a, w);
    var h, b := q / 2, q % 2;
    MulAssoc(h, 2, w);
    assert (2 * h + b) * w == (2 * h) * w + b * w;
    DivModUnique(a, 2 * w, h, b * w + a % w);
  }

  lemma {:induction false} WithoutTwice(a: nat, i: nat, j: nat)
    ensures Without(a, i + j) == Without(Without(a, i), j)
  {
    if j > 0 {
      WithoutTwice(a, i, j - 1);
    }
  }

  /** The bit read out of a limb is that bit of the number. */
  lemma {:induction false} LimbBit(s: seq<word>, k: nat, j: nat)
    requires k < |s| && j < 32
    ensures 0 < Pow(2, j) && s[k] / Pow(2, j) % 2 == Without(Value(s), 32 * k + j) % 2
  {
    hide Value, Pow, Without;
    LowLimb(s);
    if k == 0 {
      WithoutIsShift(Value(s), j);
      LowBit(Value(s), j);
    } else {
      LimbBit(s[1..], k - 1, j);
      WithoutTwice(Value(s), 32, 32 * (k - 1) + j);
      WithoutIsShift(Value(s), 32);
      Pow2Values();
    }
  }

  lemma LowBit(v: nat, j: nat)
    requires j < 32
    ensures 0 < Pow(2, j) && v % B / Pow(2, j) % 2 == v / Pow(2, j) % 2
  {
    hide Pow;
    PowPositive(2, j);
    var w, u := Pow(2, j), Pow(2, 31 - j);
    PowAdd(2, j, 31 - j);
    TopBit();
    var low, rest := v % B, v / B;
    DivMod(v, B);
    HighPart(rest, w, u);
    LowQuotient(v, low, w, u * rest);
  }

  lemma LowQuotient(v: nat, low: nat, w: int, high: int)
    requires 0 < w && v == (2 * high) * w + low
    ensures low / w % 2 == v / w % 2
  {
    DivMod(low, w);
    var q := low / w;
    assert (q + 2 * high) * w == q * w + (2 * high) * w;
    DivModUnique(v, w, q + 2 * high, low % w);
  }

  lemma HighPart(rest: int, w: int, u: int)
    ensures (2 * (u * rest)) * w == (2 * (w * u)) * rest
  {
    MulAssoc(w, u, rest);
    MulAssoc(2, u * rest, w);
    MulAssoc(2, w * u, rest);
    assert (u * rest) * w == w * (u * rest);
  }

  lemma TopBit()
    ensures Pow(2, 31) == 0x8000_0000
  {
    Pow2Values();
    assert Pow(2, 32) == 2 * Pow(2, 31);
  }

  lemma NothingLeft(s: seq<word>)
    ensures Without(Value(s), 32 * |s|) == 0
  {
    ValueBound(s);
    WeightIsPower(|s|);
    WithoutIsShift(Value(s), 32 * |s|);
    DivModUnique(Value(s), Pow(2, 32 * |s|), 0, Value(s));
  }

  // ---------- the masked product ----------

  // bignum_ct_mont_mul: the difference is always computed, and selected when it does not borrow.
  method MaskedMul(ctx: Context, a: seq<word>, b: seq<word>) returns (out: seq<word>)
    requires ctx.Ok() && |a| == |b| == |ctx.modulus| && Value(a) <= Value(ctx.modulus)
    ensures |out| == |ctx.modulus| && Value(out) < Value(ctx.modulus)
    ensures Cong(Value(out) * Weight(|ctx.modulus|), Value(a) * Value(b), Value(ctx.modulus))
  {
    hide Value, Weight, Cios, Padded, Region, Cong;
    var n := |ctx.modulus|;
    var work := new word[n + 2];
    var ok := CiosCandidate(work, a, b, ctx.modulus, n, ctx.n0inv);
    CandidateIsProduct(work[..], a, b, ctx.modulus, ctx.n0inv);
    ValueBound(ctx.modulus);
    TwoModuliFit(work[..], n, Value(ctx.modulus));
    var t := work[..n + 1];
    var low := new word[n](i requires 0 <= i < n reads {} => t[i]);
    assert low[..] == t[..n];
    RegionIsSlice(low[..], 0, n);
    assert low[..][0..n] == low[..];
    var fits := SubtractWords(low, 0, n, ctx.modulus);
    RegionIsSlice(low[..], 0, n);
    assert low[..][0..n] == low[..];
    var borrow := t[n] < (if fits then 0 else 1);
    BorrowOut(t, n, Value(ctx.modulus), fits);
    if borrow {
      out := t[..n];
      NoTopLimb(t, n, Value(ctx.modulus));
    } else {
      out := low[..];
      LowDifference(t, out, n, Value(ctx.modulus), !fits);
      OneModulusLess(Value(t), Value(out), Value(ctx.modulus), Weight(n), Value(a) * Value(b));
    }
  }

  lemma BorrowOut(t: seq<word>, n: nat, v: int, fits: bool)
    requires |t| == n + 1 && 0 <= v < Weight(n) && (fits <==> v <= Value(t[..n]))
    ensures t[n] < (if fits then 0 else 1) <==> Value(t) < v
  {
    hide Value, Weight;
    ValuePrefix(t, n);
    assert t[..n + 1] == t;
    var top: int := t[n];
    if top >= 1 {
      MulMono(1, top, Weight(n));
    }
    assert 0 * Weight(n) == 0;
  }

  method MaskedStanding(ctx: Context, a: seq<word>, ghost u: int, b: seq<word>, ghost v: int) returns (out: seq<word>)
    requires ctx.Ok() && ctx.Stands(a, u) && ctx.Stands(b, v)
    ensures ctx.Stands(out, u * v)
  {
    out := MaskedMul(ctx, a, b);
    ProductStands(ctx, a, u, b, v, out);
  }

  // ---------- the exponentiation ----------

  lemma NextBit(b: int, e: nat, i: nat)
    requires 0 < i
    ensures var w := Without(e, i);
      && Pow(b, w) * Pow(b, w) == Pow(b, 2 * w) && Pow(b, 2 * w) * b == Pow(b, 2 * w + 1)
      && Without(e, i - 1) == 2 * w + Without(e, i - 1) % 2
  {
    var w := Without(e, i);
    PowAdd(b, w, w);
    assert Pow(b, 2 * w + 1) == b * Pow(b, 2 * w);
  }

  // The bits of bignum_mod_exp_ct_core: as many as the modulus has room for, whatever the exponent's length.
  method ScanBits(ctx: Context, one: seq<word>, baseM: seq<word>, ghost b: int, exponent: seq<word>) returns (acc: seq<word>)
    requires ctx.Ok() && ctx.Stands(one, 1) && ctx.Stands(baseM, b)
    ensures ctx.Stands(acc, Pow(b, Value(exponent)))
  {
    hide Context.Ok, Context.Stands, Pow, Without, Value;
    acc := one;
    ghost var e := Value(exponent);
    NothingLeft(exponent);
    ScanStart(b, e);
    for i := 32 * |exponent| downto 0
      invariant ctx.Stands(acc, Pow(b, Without(e, i)))
    {
      NextBit(b, e, i + 1);
      ghost var w := Without(e, i + 1);
      var square := MaskedStanding(ctx, acc, Pow(b, w), acc, Pow(b, w));
      var product := MaskedStanding(ctx, square, Pow(b, 2 * w), baseM, b);
      assert i == 32 * (i / 32) + i % 32;
      LimbBit(exponent, i / 32, i % 32);
      acc := if exponent[i / 32] / Pow(2, i % 32) % 2 == 1 then product else square;
    }
  }

  lemma ScanStart(b: int, e: nat)
    ensures Pow(b, 0) == 1 && Without(e, 0) == e
  {
  }

  // crypto_bignum_mod_exp_ct, for the limbs the exponent has room for.
  method ModExpCt(base: seq<word>, exponent: seq<word>, modulus: seq<word>) returns (result: Result<seq<word>>)
    requires NoLeadingZero(base) && NoLeadingZero(modulus)
    ensures result.Success? <==> modulus != [] && modulus[0] % 2 == 1 && Value(base) < Value(modulus) && |modulus| <= |exponent|
    ensures result.Success? ==>
      && 0 < Value(modulus) && NoLeadingZero(result.value)
      && Value(result.value) == Pow(Value(base), Value(exponent[..|modulus|])) % Value(modulus)
  {
    hide Value, Weight, Padded, Context.Stands, Context.Ok, Cong, Pow, NoLeadingZero;
    if modulus == [] || modulus[0] % 2 == 0 {
      return InvalidArgument;
    }
    var compared := Compare(base, modulus);
    if compared >= 0 || |exponent| < |modulus| {
      return InvalidArgument;
    }
    var n := |modulus|;
    var ctx := Init(modulus);
    if |base| > n {
      LongerIsLarger(base, modulus);
    }
    UnitWords(n);
    PaddedValue(base, n);
    ContextIs(ctx);
    var one, baseWords := Padded([1], n), Padded(base, n);
    var oneM := MaskedMul(ctx, one, ctx.r2);
    Enters(ctx, one, oneM);
    var baseM := MaskedMul(ctx, baseWords, ctx.r2);
    Enters(ctx, baseWords, baseM);
    ghost var power := Pow(Value(base), Value(exponent[..n]));
    var acc := ScanBits(ctx, oneM, baseM, Value(base), exponent[..n]);
    StandsIs(ctx, acc, power);
    var words := MaskedMul(ctx, acc, one);
    Leaves(ctx, acc, power, words);
    var out := Trim(words);
    result := Success(out);
  }
}
