/** Modular exponentiation: sliding windows over an odd-power table in Montgomery form. */
module ModExp {
  import opened Arith
  import opened Limbs
  import opened Karatsuba
  import opened LongDivision
  import opened Montgomery

  // ---------- reduction and multiplication of words ----------

  lemma TopIsNonzero(s: seq<word>)
    requires s != [] && Weight(|s| - 1) <= Value(s)
    ensures NoLeadingZero(s)
  {
    hide Value, Weight;
    OneTop(s);
    ValueBound(s[..|s| - 1]);
    assert s[..|s|] == s;
    ValuePrefix(s, |s| - 1);
    assert 0 * Weight(|s| - 1) == 0;
  }

  // bignum_vt_store: the words without their leading zeros.
  method Trim(s: seq<word>) returns (r: seq<word>)
    ensures NoLeadingZero(r) && Value(r) == Value(s)
  {
    hide Value, Weight, NoLeadingZero;
    var length := WordsLength(s);
    r := s[..length];
    if length == 0 {
      EmptyIsTrimmed(r);
    } else {
      TopIsNonzero(r);
    }
  }

  lemma EmptyIsTrimmed(s: seq<word>)
    requires s == []
    ensures NoLeadingZero(s) && Value(s) == 0
  {
  }

  // crypto_bignum_mod on words, for a modulus other than zero.
  method ReduceWords(x: seq<word>, v: seq<word>) returns (r: seq<word>)
    requires NoLeadingZero(x) && NoLeadingZero(v) && v != []
    ensures 0 < Value(v) && NoLeadingZero(r) && Value(r) == Value(x) % Value(v)
  {
    hide Value, Weight;
    EmptyIsTrimmed([]);
    LongerIsLarger(v, []);
    var c := Compare(x, v);
    if c < 0 {
      DivModUnique(Value(x), Value(v), 0, Value(x));
      return x;
    }
    if |v| == 1 {
      SingleLimbValue(v);
      var w := ModU32(x, v[0]);
      SingleLimbValue([w]);
      r := Trim([w]);
      return;
    }
    if |x| < |v| {
      LongerIsLarger(v, x);
    }
    var remainder := ReduceLong(x, v);
    r := Trim(remainder[..]);
  }

  // crypto_bignum_mod_mul.
  method MulMod(a: seq<word>, b: seq<word>, v: seq<word>) returns (r: seq<word>)
    requires NoLeadingZero(v) && v != []
    ensures 0 < Value(v) && NoLeadingZero(r) && Value(r) == (Value(a) * Value(b)) % Value(v)
  {
    hide Value, Weight, Region, NoLeadingZero;
    var product := new word[|a| + |b|](i => 0);
    SchoolbookWords(product, 0, a, b);
    RegionIsSlice(product[..], 0, |a| + |b|);
    assert product[..][0..|a| + |b|] == product[..];
    var p := Trim(product[..]);
    r := ReduceWords(p, v);
  }

  // ---------- Montgomery form ----------

  datatype Context = Context(modulus: seq<word>, n0inv: word, r2: seq<word>) {
    ghost predicate Ok() {
      && |modulus| == |r2| > 0 && 0 < Value(modulus) && Value(modulus) % 2 == 1
      && Cong(Value(modulus) * n0inv, -1, B)
      && Value(r2) == Weight(2 * |modulus|) % Value(modulus)
    }

    /** x is the Montgomery form of v. */
    ghost predicate Stands(x: seq<word>, v: int)
      requires Ok()
    {
      |x| == |modulus| && Value(x) < Value(modulus) && Cong(Value(x), v * Weight(|modulus|), Value(modulus))
    }
  }

  /** 2 can be cancelled modulo an odd number. */
  lemma CancelTwo(x: int, y: int, n: int)
    requires 0 < n && n % 2 == 1 && Cong(2 * x, 2 * y, n)
    ensures Cong(x, y, n)
  {
    var k := CongElim(2 * x, 2 * y, n);
    var h := n / 2;
    assert k * n == 2 * (k * h) + k;
    var j := x - y - k * h;
    assert k == 2 * j && k * n == 2 * (j * n);
    CongIntro(x, y, n, j);
  }

  /** So can every power of the radix. */
  lemma {:induction false} CancelPower(x: int, y: int, e: nat, n: int)
    requires 0 < n && n % 2 == 1 && Cong(x * Pow(2, e), y * Pow(2, e), n)
    ensures Cong(x, y, n)
  {
    if e > 0 {
      var p := Pow(2, e - 1);
      assert x * Pow(2, e) == 2 * (x * p) && y * Pow(2, e) == 2 * (y * p);
      CancelTwo(x * p, y * p, n);
      CancelPower(x, y, e - 1, n);
    }
  }

  lemma CancelWeight(x: int, y: int, k: nat, n: int)
    requires 0 < n && n % 2 == 1 && Cong(x * Weight(k), y * Weight(k), n)
    ensures Cong(x, y, n)
  {
    WeightIsPower(k);
    CancelPower(x, y, 32 * k, n);
  }

  // bignum_vt_ge_mod.
  method AtLeastModulus(candidate: seq<word>, modulus: seq<word>) returns (ge: bool)
    requires |candidate| == |modulus| + 1
    ensures ge <==> Value(modulus) <= Value(candidate)
  {
    hide Value, Weight;
    var n := |modulus|;
    ValuePrefix(candidate, n);
    assert candidate[..n + 1] == candidate;
    if candidate[n] != 0 {
      ValueBound(modulus);
      MulMono(1, candidate[n], Weight(n));
      return true;
    }
    assert 0 * Weight(n) == 0;
    var low := candidate[..n];
    for i := n downto 0
      invariant low[i..] == modulus[i..]
    {
      if low[i] > modulus[i] {
        DecidedAt(modulus, low, i);
        return true;
      }
      if low[i] < modulus[i] {
        DecidedAt(low, modulus, i);
        return false;
      }
      assert low[i..] == [low[i]] + low[i + 1..] && modulus[i..] == [modulus[i]] + modulus[i + 1..];
    }
    assert low == low[0..] && modulus == modulus[0..];
    return true;
  }

  /** The n low limbs of the difference, when the difference fits them. */
  lemma LowDifference(t: seq<word>, out: seq<word>, n: nat, v: int, borrow: bool)
    requires |t| == n + 1 && |out| == n && v <= Value(t) < v + Weight(n) && 0 <= v
    requires Value(out) == Value(t[..n]) - v + (if borrow then Weight(n) else 0)
    ensures Value(out) == Value(t) - v
  {
    hide Value, Weight;
    ValuePrefix(t, n);
    assert t[..n + 1] == t;
    ValueBound(out);
    ValueBound(t[..n]);
    var top: int, w := t[n], Weight(n);
    var c := top - (if borrow then 1 else 0);
    assert c * w == top * w - (if borrow then w else 0);
    if c >= 1 {
      MulMono(1, c, w);
    } else if c <= -1 {
      MulMono(c, -1, w);
    }
  }

  // bignum_vt_mont_mul.
  method MontMul(ctx: Context, a: seq<word>, b: seq<word>) returns (out: seq<word>)
    requires ctx.Ok() && |a| == |b| == |ctx.modulus| && Value(a) <= Value(ctx.modulus)
    ensures |out| == |ctx.modulus| && Value(out) < Value(ctx.modulus)
    ensures Cong(Value(out) * Weight(|ctx.modulus|), Value(a) * Value(b), Value(ctx.modulus))
  {
    hide Value, Weight, Cios, Padded, Region, Cong;
    var n := |ctx.modulus|;
    var work := new word[n + 2];
    var ok := CiosCandidate(work, a, b, ctx.modulus, n, ctx.n0inv);
    CandidateIsProduct(work[..], a, b, ctx.modulus, ctx.n0inv);
    ValueBound(ctx.modulus);
    TwoModuliFit(work[..], n, Value(ctx.modulus));
    var t := work[..n + 1];
    var ge := AtLeastModulus(t, ctx.modulus);
    if ge {
      var low := new word[n](i requires 0 <= i < n reads {} => t[i]);
      assert low[..] == t[..n];
      RegionIsSlice(low[..], 0, n);
      assert low[..][0..n] == low[..];
      ghost var before := low[..];
      var fits := SubtractWords(low, 0, n, ctx.modulus);
      RegionIsSlice(low[..], 0, n);
      assert low[..][0..n] == low[..];
      out := low[..];
      LowDifference(t, out, n, Value(ctx.modulus), !fits);
      OneModulusLess(Value(t), Value(out), Value(ctx.modulus), Weight(n), Value(a) * Value(b));
    } else {
      out := t[..n];
      NoTopLimb(t, n, Value(ctx.modulus));
    }
  }

  lemma NoTopLimb(t: seq<word>, n: nat, v: int)
    requires |t| == n + 1 && Value(t) < v <= Weight(n)
    ensures Value(t[..n]) == Value(t)
  {
    hide Value, Weight;
    ValuePrefix(t, n);
    assert t[..n + 1] == t;
    var top: int := t[n];
    if top >= 1 {
      MulMono(1, top, Weight(n));
    }
    assert 0 * Weight(n) == 0;
  }

  /** A candidate below twice the modulus leaves the last limb free. */
  lemma TwoModuliFit(work: seq<word>, n: nat, v: int)
    requires |work| == n + 2 && Value(work) < 2 * v && v < Weight(n)
    ensures Value(work[..n + 1]) == Value(work)
  {
    hide Value, Weight;
    ValuePrefix(work, n + 1);
    assert work[..n + 2] == work;
    WeightStep(n);
    var top: int := work[n + 1];
    if top >= 1 {
      MulMono(1, top, Weight(n + 1));
    }
    assert 0 * Weight(n + 1) == 0;
  }

  lemma OneModulusLess(t: int, out: int, v: int, w: int, product: int)
    requires 0 < v && out == t - v && Cong(t * w, product, v)
    ensures Cong(out * w, product, v)
  {
    assert out * w - t * w == -w * v;
    CongIntro(out * w, t * w, v, -w);
    CongTrans(out * w, t * w, product, v);
  }

  /** The product of two Montgomery forms stands for the product. */
  lemma ProductStands(ctx: Context, a: seq<word>, u: int, b: seq<word>, v: int, out: seq<word>)
    requires ctx.Ok() && ctx.Stands(a, u) && ctx.Stands(b, v)
    requires |out| == |ctx.modulus| && Value(out) < Value(ctx.modulus)
    requires Cong(Value(out) * Weight(|ctx.modulus|), Value(a) * Value(b), Value(ctx.modulus))
    ensures ctx.Stands(out, u * v)
  {
    hide Value, Weight, Cong;
    var n, w := Value(ctx.modulus), Weight(|ctx.modulus|);
    CongMul(Value(a), u * w, Value(b), v * w, n);
    assert (u * w) * (v * w) == (u * v * w) * w by {
      SquareTerm(u, v, w);
      MulAssoc(u * v, w, w);
    }
    CongTrans(Value(out) * w, Value(a) * Value(b), (u * v * w) * w, n);
    CancelWeight(Value(out), u * v * w, |ctx.modulus|, n);
  }

  /** Multiplying by R^2 enters Montgomery form, multiplying by 1 leaves it. */
  lemma Enters(ctx: Context, x: seq<word>, out: seq<word>)
    requires ctx.Ok() && |x| == |out| == |ctx.modulus| && Value(out) < Value(ctx.modulus)
    requires Cong(Value(out) * Weight(|ctx.modulus|), Value(x) * Value(ctx.r2), Value(ctx.modulus))
    ensures ctx.Stands(out, Value(x))
  {
    hide Value, Weight, Cong;
    var k, n, w := |ctx.modulus|, Value(ctx.modulus), Weight(|ctx.modulus|);
    WeightAdd(k, k);
    CongMod(Weight(2 * k), n);
    CongScale(Value(ctx.r2), w * w, Value(x), n);
    MulAssoc(Value(x), w, w);
    CongTrans(Value(out) * w, Value(x) * Value(ctx.r2), (Value(x) * w) * w, n);
    CancelWeight(Value(out), Value(x) * w, k, n);
  }

  lemma Leaves(ctx: Context, x: seq<word>, v: int, out: seq<word>)
    requires ctx.Ok() && ctx.Stands(x, v) && Value(out) < Value(ctx.modulus)
    requires Cong(Value(out) * Weight(|ctx.modulus|), Value(x) * 1, Value(ctx.modulus))
    ensures Value(out) == v % Value(ctx.modulus)
  {
    hide Value, Weight, Cong;
    var n, w := Value(ctx.modulus), Weight(|ctx.modulus|);
    CongTrans(Value(out) * w, Value(x), v * w, n);
    CancelWeight(Value(out), v, |ctx.modulus|, n);
    CongSameMod(Value(out), v, n);
    DivModUnique(Value(out), n, 0, Value(out));
  }

  method MulStanding(ctx: Context, a: seq<word>, ghost u: int, b: seq<word>, ghost v: int) returns (out: seq<word>)
    requires ctx.Ok() && ctx.Stands(a, u) && ctx.Stands(b, v)
    ensures ctx.Stands(out, u * v)
  {
    out := MontMul(ctx, a, b);
    ProductStands(ctx, a, u, b, v, out);
  }

  // ---------- setup ----------

  lemma UnitWords(n: nat)
    requires 0 < n
    ensures Value(Padded([1], n)) == 1 && NoLeadingZero([1]) && Value([1]) == 1
  {
    hide Padded;
    SingleLimbValue([1]);
    PaddedValue([1], n);
  }

  // bignum_mont_compute_r2_words: 2^(64 n) as words, reduced, and padded to n words.
  method ComputeR2(modulus: seq<word>) returns (r2: seq<word>)
    requires modulus != [] && NoLeadingZero(modulus)
    ensures 0 < Value(modulus) && |r2| == |modulus| && Value(r2) == Weight(2 * |modulus|) % Value(modulus)
  {
    hide Value, Weight, Padded;
    var n := |modulus|;
    var zeros := seq(2 * n, i => 0);
    var power := zeros + [1];
    ValueZero(zeros);
    ValueAppend(zeros, 1);
    assert power[|power| - 1] == 1;
    var reduced := ReduceWords(power, modulus);
    DivMod(Weight(2 * n), Value(modulus));
    if |reduced| > n {
      LongerIsLarger(reduced, modulus);
    }
    PaddedValue(reduced, n);
    r2 := Padded(reduced, n);
  }

  // bignum_vt_mont_init, for an odd modulus.
  method Init(modulus: seq<word>) returns (ctx: Context)
    requires modulus != [] && NoLeadingZero(modulus) && modulus[0] % 2 == 1
    ensures ctx.Ok() && ctx.modulus == modulus
  {
    hide Value, Weight, Cong;
    var n0inv := N0inv(modulus[0]);
    LowLimbInverse(modulus, n0inv);
    LowLimb(modulus);
    OddValue(Value(modulus));
    var r2 := ComputeR2(modulus);
    ctx := Context(modulus, n0inv, r2);
  }

  lemma OddValue(v: nat)
    ensures v % 2 == v % B % 2
  {
    DivMod(v, B);
    assert v == 2 * (v / B * 0x8000_0000) + v % B;
  }

  // ---------- windows ----------

  /** The odd powers of b, in Montgomery form. */
  ghost predicate OddPowers(ctx: Context, table: seq<seq<word>>, b: int)
    requires ctx.Ok()
  {
    forall k | 0 <= k < |table| :: ctx.Stands(table[k], Pow(b, 2 * k + 1))
  }

  // bignum_vt_window_bits.
  function WindowBits(exponentBits: nat): (w: nat)
    ensures 1 <= w <= 5
  {
    if exponentBits < 24 then 1 else if exponentBits < 80 then 2 else if exponentBits < 240 then 3
    else if exponentBits < 672 then 4 else 5
  }

  lemma NextOddPower(b: int, k: nat)
    ensures Pow(b, 2 * k + 1) * Pow(b, 2) == Pow(b, 2 * (k + 1) + 1)
    ensures Pow(b, 1) == b && Pow(b, 2) == b * b
  {
    PowAdd(b, 2 * k + 1, 2);
    assert Pow(b, 1) == b * Pow(b, 0);
    assert Pow(b, 2) == b * Pow(b, 1);
  }

  // The table of the exponentiation.
  method BuildTable(ctx: Context, baseM: seq<word>, ghost b: int, count: nat) returns (table: seq<seq<word>>)
    requires ctx.Ok() && ctx.Stands(baseM, b) && 1 <= count
    ensures |table| == count && OddPowers(ctx, table, b)
  {
    hide Context.Ok, Context.Stands, Pow;
    table := [baseM];
    NextOddPower(b, 0);
    if count > 1 {
      var base2 := MulStanding(ctx, baseM, b, baseM, b);
      for k := 1 to count
        invariant |table| == k && OddPowers(ctx, table, b)
      {
        NextOddPower(b, k - 1);
        var next := MulStanding(ctx, table[k - 1], Pow(b, 2 * (k - 1) + 1), base2, Pow(b, 2));
        table := table + [next];
      }
    }
  }

  /** The bits of e from low up to i. */
  ghost function Window(e: nat, low: nat, i: nat): int
    requires low <= i
  {
    Without(e, low) - Without(e, i) * Pow(2, i - low)
  }

  lemma WindowEmpty(e: nat, i: nat)
    ensures Window(e, i, i) == 0
  {
    assert Pow(2, 0) == 1;
  }

  lemma WindowMore(e: nat, j: nat, i: nat)
    requires 0 < j <= i
    ensures Window(e, j - 1, i) == 2 * Window(e, j, i) + Without(e, j - 1) % 2
  {
    var p := Pow(2, i - j);
    assert Pow(2, i - (j - 1)) == 2 * p;
    assert Without(e, i) * (2 * p) == 2 * (Without(e, i) * p);
  }

  lemma {:induction false} WindowRange(e: nat, low: nat, i: nat)
    requires low <= i
    ensures 0 <= Window(e, low, i) < Pow(2, i - low)
    decreases i - low
  {
    if low == i {
      WindowEmpty(e, i);
      assert Pow(2, 0) == 1;
    } else {
      WindowRange(e, low + 1, i);
      WindowMore(e, low + 1, i);
      assert Pow(2, i - low) == 2 * Pow(2, i - (low + 1));
    }
  }

  lemma OddWindow(e: nat, low: nat, i: nat, bits: nat)
    requires low < i <= low + bits && Without(e, low) % 2 == 1 && 1 <= bits
    ensures var value := Window(e, low, i); value % 2 == 1 && 0 <= (value - 1) / 2 < Pow(2, bits - 1)
    ensures Window(e, low, i) == 2 * ((Window(e, low, i) - 1) / 2) + 1
  {
    hide Window, Without, Pow;
    WindowMore(e, low + 1, i);
    WindowRange(e, low, i);
    PowMono(2, i - low, bits);
    PowHalved(bits);
  }

  lemma PowHalved(bits: nat)
    requires 1 <= bits
    ensures Pow(2, bits) == 2 * Pow(2, bits - 1)
  {
  }

  // The squarings of one window.
  method SquareTimes(ctx: Context, acc: seq<word>, ghost b: int, ghost h: nat, times: nat) returns (out: seq<word>)
    requires ctx.Ok() && ctx.Stands(acc, Pow(b, h))
    ensures 0 <= h * Pow(2, times) && ctx.Stands(out, Pow(b, h * Pow(2, times)))
  {
    hide Context.Ok, Context.Stands, Pow;
    out := acc;
    ghost var m := h;
    DoublesStart(h);
    for j := 0 to times
      invariant m == h * Pow(2, j) && ctx.Stands(out, Pow(b, m))
    {
      PowAdd(b, m, m);
      DoublesNext(h, j);
      out := MulStanding(ctx, out, Pow(b, m), out, Pow(b, m));
      m := m + m;
    }
  }

  lemma DoublesStart(h: nat)
    ensures h == h * Pow(2, 0)
  {
  }

  lemma DoublesNext(h: nat, j: nat)
    ensures h * Pow(2, j) + h * Pow(2, j) == h * Pow(2, j + 1)
  {
    assert Pow(2, j + 1) == 2 * Pow(2, j);
    assert h * (2 * Pow(2, j)) == h * Pow(2, j) + h * Pow(2, j);
  }

  // The window below bit i: as wide as allowed, with its low zeros left for later.
  method FindWindow(e: nat, i: nat, bits: nat) returns (low: nat, value: nat)
    requires 0 < i && 1 <= bits && Without(e, i - 1) % 2 == 1
    ensures low < i <= low + bits && Without(e, low) % 2 == 1 && value == Window(e, low, i)
  {
    hide Window, Without;
    low := if i > bits then i - bits else 0;
    while low < i - 1 && Without(e, low) % 2 != 1
      invariant low <= i - 1 && i <= low + bits
      decreases i - low
    {
      low := low + 1;
    }
    WindowEmpty(e, i);
    value := 0;
    for j := i downto low
      invariant value == Window(e, j, i)
    {
      WindowMore(e, j + 1, i);
      value := 2 * value + Without(e, j) % 2;
    }
  }

  // The sliding-window loop of crypto_bignum_mod_exp_vartime.
  method Slide(ctx: Context, one: seq<word>, table: seq<seq<word>>, ghost b: int, e: nat, bits: nat) returns (acc: seq<word>)
    requires ctx.Ok() && ctx.Stands(one, 1) && 1 <= bits && |table| == Pow(2, bits - 1) && OddPowers(ctx, table, b)
    ensures ctx.Stands(acc, Pow(b, e))
  {
    hide Context.Ok, Context.Stands, Pow, Without, Window, BitLength;
    acc := one;
    var i := BitLength(e);
    SlideStart(b, e);
    while i != 0
      invariant ctx.Stands(acc, Pow(b, Without(e, i)))
      decreases i
    {
      if Without(e, i - 1) % 2 != 1 {
        SkippedBit(b, e, i);
        acc := MulStanding(ctx, acc, Pow(b, Without(e, i)), acc, Pow(b, Without(e, i)));
        i := i - 1;
      } else {
        var low, value := FindWindow(e, i, bits);
        OddWindow(e, low, i, bits);
        acc := SquareTimes(ctx, acc, b, Without(e, i), i - low);
        var k := (value - 1) / 2;
        TakenWindow(b, e, low, i);
        acc := MulStanding(ctx, acc, Pow(b, Without(e, i) * Pow(2, i - low)), table[k], Pow(b, 2 * k + 1));
        i := low;
      }
    }
  }

  lemma SlideStart(b: int, e: nat)
    ensures Pow(b, Without(e, BitLength(e))) == 1 && Without(e, 0) == e
  {
    WithoutAll(e);
  }

  lemma SkippedBit(b: int, e: nat, i: nat)
    requires 0 < i && Without(e, i - 1) % 2 != 1
    ensures Pow(b, Without(e, i)) * Pow(b, Without(e, i)) == Pow(b, Without(e, i - 1))
  {
    PowAdd(b, Without(e, i), Without(e, i));
    assert Without(e, i - 1) == Without(e, i) + Without(e, i);
  }

  lemma TakenWindow(b: int, e: nat, low: nat, i: nat)
    requires low <= i && 0 <= Without(e, i) * Pow(2, i - low) && 0 <= Window(e, low, i)
    ensures Pow(b, Without(e, i) * Pow(2, i - low)) * Pow(b, Window(e, low, i)) == Pow(b, Without(e, low))
  {
    PowAdd(b, Without(e, i) * Pow(2, i - low), Window(e, low, i));
  }

  // The Montgomery part of crypto_bignum_mod_exp_vartime.
  method Exponentiate(modulus: seq<word>, reduced: seq<word>, e: nat) returns (out: seq<word>)
    requires modulus != [] && NoLeadingZero(modulus) && modulus[0] % 2 == 1 && 1 < Value(modulus)
    requires NoLeadingZero(reduced) && Value(reduced) < Value(modulus)
    ensures NoLeadingZero(out) && Value(out) == Pow(Value(reduced), e) % Value(modulus)
  {
    hide Value, Weight, Padded, Context.Stands, Context.Ok, Cong, Pow, OddPowers, BitLength, NoLeadingZero;
    var n := |modulus|;
    var ctx := Init(modulus);
    if |reduced| > n {
      LongerIsLarger(reduced, modulus);
    }
    UnitWords(n);
    PaddedValue(reduced, n);
    ContextIs(ctx);
    var one, baseWords := Padded([1], n), Padded(reduced, n);
    var oneM := MontMul(ctx, one, ctx.r2);
    Enters(ctx, one, oneM);
    var baseM := MontMul(ctx, baseWords, ctx.r2);
    Enters(ctx, baseWords, baseM);
    var bits := WindowBits(BitLength(e));
    PowPositive(2, bits - 1);
    var table := BuildTable(ctx, baseM, Value(reduced), Pow(2, bits - 1));
    var acc := Slide(ctx, oneM, table, Value(reduced), e, bits);
    StandsIs(ctx, acc, Pow(Value(reduced), e));
    var result := MontMul(ctx, acc, one);
    Leaves(ctx, acc, Pow(Value(reduced), e), result);
    out := Trim(result);
  }

  lemma ContextIs(ctx: Context)
    requires ctx.Ok()
    ensures |ctx.r2| == |ctx.modulus|
  {
  }

  lemma StandsIs(ctx: Context, x: seq<word>, v: int)
    requires ctx.Ok() && ctx.Stands(x, v)
    ensures |x| == |ctx.modulus| && Value(x) < Value(ctx.modulus)
  {
  }

  // ---------- the whole function ----------

  lemma ReducedBase(b: nat, r: nat, e: nat, n: int)
    requires 0 < n && r == b % n
    ensures Pow(r, e) % n == Pow(b, e) % n
  {
    CongMod(b, n);
    CongPow(r, b, e, n);
    CongSameMod(Pow(r, e), Pow(b, e), n);
  }

  lemma SmallCases(b: int, e: nat, n: int)
    requires 1 < n
    ensures Pow(b, 0) % n == 1 && Pow(b, 1) == b && Pow(b, 2) == b * b
    ensures e > 0 ==> Pow(0, e) % n == 0
    ensures Pow(1, e) % n == 1
  {
    DivModUnique(1, n, 0, 1);
    DivModUnique(0, n, 0, 0);
    NextOddPower(b, 0);
    PowOne(e);
    if e > 0 {
      assert Pow(0, e) == 0 * Pow(0, e - 1);
    }
  }

  // The branch of crypto_bignum_mod_exp for even moduli: right to left, one bit at a time.
  method ExponentiateEven(base: seq<word>, e: nat, modulus: seq<word>) returns (out: seq<word>)
    requires NoLeadingZero(base) && NoLeadingZero(modulus) && modulus != []
    ensures 0 < Value(modulus) && NoLeadingZero(out) && Value(out) == Pow(Value(base), e) % Value(modulus)
  {
    hide Value, Weight, Pow, Without, BitLength, NoLeadingZero;
    var result := [1];
    UnitWords(1);
    var b := ReduceWords(base, modulus);
    ghost var v, n := Value(base), Value(modulus);
    var bits := BitLength(e);
    ghost var done := 0;
    EvenStart(v, n, e, Value(b));
    for i := 0 to bits
      invariant NoLeadingZero(result) && NoLeadingZero(b)
      invariant done + Pow(2, i) * Without(e, i) == e && 0 <= done
      invariant Cong(Value(result), Pow(v, done), n)
      invariant i < bits ==> Cong(Value(b), Pow(v, Power2(i)), n)
    {
      EvenStep(v, n, e, i, done, Value(result), Value(b));
      if Without(e, i) % 2 == 1 {
        result := MulMod(result, b, modulus);
        done := done + Power2(i);
      }
      if i + 1 < bits {
        b := MulMod(b, b, modulus);
      }
    }
    EvenEnd(v, n, e, bits, done, Value(result));
    out := ReduceWords(result, modulus);
  }

  ghost function Power2(i: nat): nat {
    PowPositive(2, i);
    Pow(2, i)
  }

  lemma EvenStart(v: nat, n: int, e: nat, b: int)
    requires 0 < n && b == v % n
    ensures 0 + Pow(2, 0) * Without(e, 0) == e && Cong(1, Pow(v, 0), n) && Cong(b, Pow(v, Power2(0)), n)
  {
    CongRefl(1, n);
    NextOddPower(v, 0);
    assert Power2(0) == 1;
    CongMod(v, n);
  }

  lemma EvenStep(v: nat, n: int, e: nat, i: nat, done: nat, result: int, b: int)
    requires 0 < n && done + Pow(2, i) * Without(e, i) == e
    requires Cong(result, Pow(v, done), n) && Cong(b, Pow(v, Power2(i)), n)
    ensures var bit := Without(e, i) % 2; done + bit * Power2(i) + Pow(2, i + 1) * Without(e, i + 1) == e
    ensures Cong(result * b % n, Pow(v, done + Power2(i)), n)
    ensures Cong(b * b % n, Pow(v, Power2(i + 1)), n)
  {
    hide Cong;
    var p, w := Pow(2, i), Without(e, i);
    assert Pow(2, i + 1) == 2 * p && Without(e, i + 1) == w / 2;
    assert p * w == (w % 2) * p + (2 * p) * (w / 2) by {
      assert w == 2 * (w / 2) + w % 2;
      assert p * (2 * (w / 2) + w % 2) == p * (2 * (w / 2)) + p * (w % 2);
      MulAssoc(p, 2, w / 2);
    }
    PowAdd(v, done, Power2(i));
    PowAdd(v, Power2(i), Power2(i));
    CongMul(result, Pow(v, done), b, Pow(v, Power2(i)), n);
    CongMod(result * b, n);
    CongTrans(result * b % n, result * b, Pow(v, done + Power2(i)), n);
    CongMul(b, Pow(v, Power2(i)), b, Pow(v, Power2(i)), n);
    CongMod(b * b, n);
    CongTrans(b * b % n, b * b, Pow(v, Power2(i + 1)), n);
  }

  lemma EvenEnd(v: nat, n: int, e: nat, bits: nat, done: nat, result: int)
    requires 0 < n && bits == BitLength(e) && done + Pow(2, bits) * Without(e, bits) == e && Cong(result, Pow(v, done), n)
    ensures result % n == Pow(v, e) % n
  {
    WithoutAll(e);
    assert Pow(2, bits) * 0 == 0;
    CongSameMod(result, Pow(v, done), n);
  }

  // crypto_bignum_mod_exp_vartime.
  method ModExpVartime(base: seq<word>, e: nat, modulus: seq<word>) returns (ok: bool, out: seq<word>)
    requires NoLeadingZero(base) && NoLeadingZero(modulus)
    ensures ok <==> modulus != []
    ensures ok ==> 0 < Value(modulus) && NoLeadingZero(out) && Value(out) == Pow(Value(base), e) % Value(modulus)
  {
    hide Value, Weight, Pow;
    out := [];
    EmptyIsTrimmed(out);
    if modulus == [] {
      return false, out;
    }
    UnitWords(1);
    if modulus == [1] {
      DivModUnique(Pow(Value(base), e), 1, Pow(Value(base), e), 0);
      return true, out;
    }
    AboveOne(modulus);
    SmallCases(Value(base), e, Value(modulus));
    if e == 0 {
      return true, [1];
    }
    if e == 1 {
      out := ReduceWords(base, modulus);
      return true, out;
    }
    if e == 2 {
      out := MulMod(base, base, modulus);
      return true, out;
    }
    if modulus[0] % 2 != 1 {
      out := ExponentiateEven(base, e, modulus);
      return true, out;
    }
    var reduced := ReduceWords(base, modulus);
    ReducedBase(Value(base), Value(reduced), e, Value(modulus));
    DivMod(Value(base), Value(modulus));
    if reduced == [] {
      return true, reduced;
    }
    if reduced == [1] {
      return true, [1];
    }
    out := Exponentiate(modulus, reduced, e);
    return true, out;
  }

  lemma AboveOne(s: seq<word>)
    requires NoLeadingZero(s) && s != [] && s != [1]
    ensures 1 < Value(s)
  {
    if |s| == 1 {
      SingleLimbValue(s);
      assert s == [s[0]];
    } else {
      SingleLimbValue([1]);
      LongerIsLarger(s, [1]);
    }
  }
}
