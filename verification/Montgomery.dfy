/** Montgomery multiplication by coarsely integrated operand scanning, in its shifting and its shift-free form. */
module Montgomery {
  import opened Arith
  import opened Limbs
  import opened Karatsuba

  // ---------- the computation on values ----------

  /** The multiple of the modulus that clears the low limb of u. */
  function Multiplier(u: nat, n0inv: word): word {
    u % B * n0inv % B
  }

  /** One outer round: add a times a limb, add a multiple of the modulus, drop a limb. */
  function Round(t: nat, a: nat, limb: word, modulus: nat, n0inv: word): nat {
    var u := t + a * limb;
    (u + Multiplier(u, n0inv) * modulus) / B
  }

  /** The candidate after one round per limb of b. */
  function Cios(a: nat, b: seq<word>, modulus: nat, n0inv: word): nat {
    if b == [] then 0 else Round(Cios(a, b[..|b| - 1], modulus, n0inv), a, b[|b| - 1], modulus, n0inv)
  }

  lemma RoundBound(t: nat, a: nat, limb: word, modulus: nat, n0inv: word, bound: int)
    requires t < bound && a + modulus <= bound
    ensures Round(t, a, limb, modulus, n0inv) < bound
  {
    hide *;
    RoundTotal(t, a, limb, modulus, n0inv, bound);
    RoundIs(t, a, limb, modulus, n0inv);
    var x: int := t + a * limb + Multiplier(t + a * limb, n0inv) * modulus;
    DivBound(x, B, 0, bound);
  }

  lemma RoundTotal(t: nat, a: nat, limb: word, modulus: nat, n0inv: word, bound: int)
    requires t < bound && a + modulus <= bound
    ensures 0 <= a * limb
    ensures 0 <= t + a * limb + Multiplier(t + a * limb, n0inv) * modulus < bound * B
  {
    hide *;
    ProductNotNegative(a, limb);
    var m: int := Multiplier(t + a * limb, n0inv);
    RoundSum(t, a, limb, modulus, m, bound);
  }

  lemma ProductNotNegative(x: nat, y: nat)
    ensures 0 <= x * y
  {
  }

  lemma RoundIs(t: nat, a: nat, limb: word, modulus: nat, n0inv: word)
    ensures Round(t, a, limb, modulus, n0inv) == (t + a * limb + Multiplier(t + a * limb, n0inv) * modulus) / B
  {
  }

  lemma RoundSum(t: int, a: int, limb: int, modulus: int, m: int, bound: int)
    requires 0 <= t < bound && 0 <= a && 0 <= modulus && a + modulus <= bound && 0 <= limb < B && 0 <= m < B
    ensures 0 <= t + a * limb + m * modulus < bound * B
  {
    MulBound(limb, B - 1, a, a);
    MulBound(m, B - 1, modulus, modulus);
  }

  /** The candidate stays below a + N, hence below 2N for a below N. */
  lemma {:induction false} CiosBound(a: nat, b: seq<word>, modulus: nat, n0inv: word)
    requires 0 < modulus
    ensures Cios(a, b, modulus, n0inv) < a + modulus
  {
    if b != [] {
      CiosBound(a, b[..|b| - 1], modulus, n0inv);
      RoundBound(Cios(a, b[..|b| - 1], modulus, n0inv), a, b[|b| - 1], modulus, n0inv, a + modulus);
    }
  }

  /** With n0inv = -1/N modulo B the dropped limb is zero. */
  lemma RoundExact(u: nat, modulus: nat, n0inv: word)
    requires Cong(modulus * n0inv, -1, B)
    ensures (u + Multiplier(u, n0inv) * modulus) % B == 0
  {
    var w, m := u % B, Multiplier(u, n0inv);
    CongMod(u, B);
    CongMod(w * n0inv, B);
    CongScale(m, w * n0inv, modulus, B);
    CongScale(modulus * n0inv, -1, w, B);
    assert (w * n0inv) * modulus == w * (modulus * n0inv) by {
      MulAssoc(w, n0inv, modulus);
      assert n0inv * modulus == modulus * n0inv;
    }
    CongTrans(m * modulus, w * (modulus * n0inv), w * -1, B);
    CongAdd(u, w, m * modulus, w * -1, B);
    CongSameMod(u + m * modulus, 0, B);
  }

  /** The candidate times B^|b| is a * b modulo N. */
  lemma {:induction false} CiosCongruent(a: nat, b: seq<word>, modulus: nat, n0inv: word)
    requires 0 < modulus && Cong(modulus * n0inv, -1, B)
    ensures Cong(Cios(a, b, modulus, n0inv) * Weight(|b|), a * Value(b), modulus)
  {
    if b == [] {
      CongRefl(0, modulus);
    } else {
      var k := |b| - 1;
      hide Cong, Multiplier, Round;
      var t := Cios(a, b[..k], modulus, n0inv);
      CiosCongruent(a, b[..k], modulus, n0inv);
      var u := t + a * b[k];
      RoundExact(u, modulus, n0inv);
      DivMod(u + Multiplier(u, n0inv) * modulus, B);
      RoundCongruent(Round(t, a, b[k], modulus, n0inv), t, a, b[k], Multiplier(u, n0inv), modulus, Weight(k), Value(b[..k]));
    }
  }

  lemma RoundCongruent(t': int, t: int, a: int, limb: int, m: int, modulus: int, w: int, prefix: int)
    requires 0 < modulus && Cong(t * w, a * prefix, modulus) && t' * B == t + a * limb + m * modulus
    ensures Cong(t' * (B * w), a * (prefix + limb * w), modulus)
  {
    hide Cong;
    RoundExpand(t', t, a, limb, m, modulus, w, prefix);
    CongRefl(a * limb * w, modulus);
    CongAdd(t * w, a * prefix, a * limb * w, a * limb * w, modulus);
    CongIntro(t' * (B * w), t * w + a * limb * w, modulus, m * w);
    CongTrans(t' * (B * w), t * w + a * limb * w, a * prefix + a * limb * w, modulus);
  }

  lemma RoundExpand(t': int, t: int, a: int, limb: int, m: int, modulus: int, w: int, prefix: int)
    requires t' * B == t + a * limb + m * modulus
    ensures t' * (B * w) - (t * w + a * limb * w) == m * w * modulus
    ensures a * (prefix + limb * w) == a * prefix + a * limb * w
  {
    MulAssoc(t', B, w);
    assert (t + a * limb + m * modulus) * w == t * w + a * limb * w + (m * modulus) * w;
    assert (m * modulus) * w == m * w * modulus;
    MulAssoc(a, limb, w);
  }

  // ---------- the word inverse ----------

  lemma NewtonStep(n0: word, x: word, m: nat)
    requires 0 < m && m * m > 0 && B % (m * m) == 0 && Cong(n0 * x, 1, m)
    ensures Cong(n0 * (x * (2 - n0 * x) % B), 1, m * m)
  {
    var y := x * (2 - n0 * x);
    var k := CongElim(n0 * x, 1, m);
    NewtonSquare(n0, x, m, k);
    CongIntro(n0 * y, 1, m * m, -(k * k));
    CongMod(y, B);
    var q := CongElim(y % B, y, B);
    DivMod(B, m * m);
    assert q * B == (q * (B / (m * m))) * (m * m) by {
      MulAssoc(q, B / (m * m), m * m);
    }
    CongIntro(y % B, y, m * m, q * (B / (m * m)));
    CongScale(y % B, y, n0, m * m);
    CongTrans(n0 * (y % B), n0 * y, 1, m * m);
  }

  lemma NewtonSquare(n0: int, x: int, m: int, k: int)
    requires n0 * x - 1 == k * m
    ensures n0 * (x * (2 - n0 * x)) - 1 == -(k * k) * (m * m)
  {
    var e := k * m;
    calc {
      n0 * (x * (2 - n0 * x)) - 1;
      { MulAssoc(n0, x, 2 - n0 * x); }
      (n0 * x) * (2 - n0 * x) - 1;
      (1 + e) * (1 - e) - 1;
      -(e * e);
      { SquareTerm(k, k, m); }
      -(k * k) * (m * m);
    }
  }

  // bignum_mont_n0inv: five Newton steps double the number of correct bits each, from 1 to 32.
  method N0inv(n0: word) returns (r: word)
    ensures n0 % 2 == 1 <==> Cong(n0 * r, -1, B)
  {
    var x: word := 1;
    ghost var m := 2;
    if n0 % 2 == 1 {
      CongIntro(n0 * x, 1, 2, n0 / 2);
    }
    for i := 0 to 5
      invariant m == (match i case 0 => 2 case 1 => 4 case 2 => 16 case 3 => 256 case 4 => 0x1_0000 case _ => B)
      invariant n0 % 2 == 1 ==> Cong(n0 * x, 1, m)
    {
      if n0 % 2 == 1 {
        NewtonStep(n0, x, m);
      }
      x := x * (2 - n0 * x) % B;
      m := m * m;
    }
    r := (0 - x) % B;
    Inverse(n0, x, r);
  }

  lemma Inverse(n0: word, x: word, r: word)
    requires r == (0 - x) % B && (n0 % 2 == 1 ==> Cong(n0 * x, 1, B))
    ensures n0 % 2 == 1 <==> Cong(n0 * r, -1, B)
  {
    if n0 % 2 == 1 {
      CongMod(0 - x, B);
      CongScale(r, 0 - x, n0, B);
      CongRefl(0, B);
      CongSub(0, 0, n0 * x, 1, B);
      CongTrans(n0 * r, n0 * (0 - x), -1, B);
    } else {
      EvenProduct(n0, r);
    }
  }

  lemma EvenProduct(n0: int, r: int)
    requires n0 % 2 == 0
    ensures !Cong(n0 * r, -1, B)
  {
    var y := (n0 / 2) * r;
    assert n0 * r == 2 * y;
    assert (2 * y + 1) % B != 0;
  }

  // ---------- the computation on limbs ----------

  /** The low limb is the remainder and the other limbs are the quotient of division by B. */
  lemma LowLimb(s: seq<word>)
    requires |s| > 0
    ensures Value(s) % B == s[0] && Value(s) / B == Value(s[1..])
  {
    ValueSplit(s, 1);
    SingleLimb(s[..1]);
    assert Weight(1) == B;
    DivModUnique(Value(s), B, Value(s[1..]), s[0]);
  }

  lemma SingleLimb(s: seq<word>)
    requires |s| == 1
    ensures Value(s) == s[0]
  {
    assert Value(s[..0]) == 0 && Weight(0) == 1;
  }

  lemma TopLimbs(s: seq<word>, s': seq<word>, n: nat, carry: word)
    requires |s| == n + 2 && Value(s) + carry * Weight(n) < Weight(n + 2)
    requires var z := s[n] + carry; s' == s[n := z % B][n + 1 := (s[n + 1] + z / B) % B]
    ensures Value(s') == Value(s) + carry * Weight(n)
  {
    hide Value, Weight;
    var z := s[n] + carry;
    var s1 := s[n := z % B];
    WholeSeq(s);
    WholeSeq(s1);
    StoreCarry(s, s1, 0, n + 2, n, carry, 0, z);
    TopRoom(s1, n + 1, z / B);
    ValueUpdate(s1, n + 1, s1[n + 1] + z / B);
    assert s1[n + 1] + z / B - s1[n + 1] == z / B;
  }

  lemma WholeSeq(s: seq<word>)
    ensures Region(s, 0, |s|) == s
  {
  }

  /** A total below B^(n + 2) leaves the top limb room for what is added to it. */
  lemma TopRoom(s: seq<word>, k: nat, x: nat)
    requires |s| == k + 1 && Value(s) + x * Weight(k) < Weight(k + 1)
    ensures s[k] + x < B
  {
    var w := Weight(k);
    assert Value(s) == Value(s[..k]) + s[k] * w;
    var sum: int := s[k] + x;
    assert sum * w == s[k] * w + x * w;
    if sum >= B {
      MulMono(B, sum, w);
    }
  }

  // One row of either kind: the inner loop and the two top limbs.
  method AccumulateRow(work: array<word>, n: nat, m: word, x: seq<word>)
    requires work.Length == n + 2 && |x| == n && Value(work[..]) + m * Value(x) < Weight(n + 2)
    modifies work
    ensures Value(work[..]) == old(Value(work[..])) + m * Value(x)
  {
    hide Value, Weight, Region;
    ghost var s := work[..];
    var carry := MulAddRow(work, 0, n + 2, 0, m, x);
    ghost var s1 := work[..];
    RowFromZero(s, s1, m, x, carry);
    var top: int := work[n];
    var z := top + carry;
    work[n] := z % B;
    work[n + 1] := (work[n + 1] + z / B) % B;
    TopLimbs(s1, work[..], n, carry);
  }

  lemma RowFromZero(s: seq<word>, s': seq<word>, m: word, x: seq<word>, carry: word)
    requires |s| == |s'|
    requires Value(Region(s', 0, |s|)) + carry * Weight(0 + |x|) == Value(Region(s, 0, |s|)) + m * Value(x) * Weight(0)
    ensures Value(s') + carry * Weight(|x|) == Value(s) + m * Value(x)
  {
    hide Value, Region;
    WholeSeq(s);
    WholeSeq(s');
    TimesFirstWeight(m * Value(x));
  }

  // The move of all limbs down by one place.
  method ShiftDown(work: array<word>, n: nat)
    requires work.Length == n + 2
    modifies work
    ensures Value(work[..]) == old(Value(work[..])) / B
  {
    hide Value, Weight;
    ghost var s := work[..];
    for j := 0 to n + 1
      invariant forall i | 0 <= i < j :: work[i] == s[i + 1]
      invariant forall i | j <= i < n + 2 :: work[i] == s[i]
    {
      work[j] := work[j + 1];
    }
    work[n + 1] := 0;
    assert work[..] == s[1..] + [0];
    ValueAppend(s[1..], 0);
    LowLimb(s);
  }

  /** The sums of a round fit n + 2 limbs. */
  lemma RoundFits(t: nat, a: nat, limb: word, modulus: nat, n0inv: word, n: nat)
    requires t < 2 * Weight(n) && a < Weight(n) && modulus < Weight(n)
    ensures var u := t + a * limb;
      && u == t + limb * a && u <= u + Multiplier(u, n0inv) * modulus < Weight(n + 2)
      && Round(t, a, limb, modulus, n0inv) < 2 * Weight(n)
  {
    hide Multiplier;
    RoundBound(t, a, limb, modulus, n0inv, 2 * Weight(n));
    RoundTotal(t, a, limb, modulus, n0inv, 2 * Weight(n));
    MulMono(0, Multiplier(t + a * limb, n0inv), modulus);
    WeightStep(n);
    WeightStep(n + 1);
  }

  // benchmark_mont_cios_shift.
  method CiosShift(work: array<word>, a: seq<word>, b: seq<word>, modulus: seq<word>, n: nat, n0inv: word) returns (ok: bool)
    requires work.Length == n + 2 && |a| == |b| == |modulus| == n
    modifies work
    ensures ok <==> n != 0
    ensures ok ==> Value(work[..]) == Cios(Value(a), b, Value(modulus), n0inv)
  {
    hide Value, Weight, Region, Round, Cios;
    if n == 0 {
      return false;
    }
    Clear(work, 0, n + 2);
    ValueZero(work[..]);
    CiosStart(a, b, modulus, n0inv);
    for i := 0 to n
      invariant Value(work[..]) == Cios(Value(a), b[..i], Value(modulus), n0inv) < 2 * Weight(n)
    {
      ghost var t := Value(work[..]);
      RoundFits(t, Value(a), b[i], Value(modulus), n0inv, n);
      AccumulateRow(work, n, b[i], a);
      LowLimb(work[..]);
      var m := work[0] * n0inv % B;
      AccumulateRow(work, n, m, modulus);
      ShiftDown(work, n);
      CiosNext(a, b, modulus, n0inv, i, t);
    }
    assert b[..n] == b;
    return true;
  }

  lemma CiosStart(a: seq<word>, b: seq<word>, modulus: seq<word>, n0inv: word)
    requires |a| == |modulus|
    ensures Cios(Value(a), b[..0], Value(modulus), n0inv) == 0 < 2 * Weight(|a|)
    ensures Value(a) < Weight(|a|) && Value(modulus) < Weight(|a|)
  {
    ValueBound(a);
    ValueBound(modulus);
  }

  lemma CiosNext(a: seq<word>, b: seq<word>, modulus: seq<word>, n0inv: word, i: nat, t: nat)
    requires i < |b| && t == Cios(Value(a), b[..i], Value(modulus), n0inv)
    ensures Cios(Value(a), b[..i + 1], Value(modulus), n0inv) == Round(t, Value(a), b[i], Value(modulus), n0inv)
    ensures var u := t + Value(a) * b[i];
      Round(t, Value(a), b[i], Value(modulus), n0inv) == (u + u % B * n0inv % B * Value(modulus)) / B
  {
    hide Value;
    assert b[..i + 1][..i] == b[..i];
  }

  // ---------- the shift-free form ----------

  /** s with zero limbs up to n: what reading past its length gives. */
  function Padded(s: seq<word>, n: nat): (p: seq<word>)
    requires |s| <= n
    ensures |p| == n
  {
    s + seq(n - |s|, i => 0)
  }

  lemma PaddedValue(s: seq<word>, n: nat)
    requires |s| <= n
    ensures Value(Padded(s, n)) == Value(s)
  {
    hide Value, Weight;
    var p := Padded(s, n);
    ValueSplit(p, |s|);
    assert p[..|s|] == s;
    ValueZero(p[|s|..]);
    NothingTimes(Value(p[|s|..]), Weight(|s|));
  }

  lemma NothingTimes(x: int, w: int)
    requires x == 0
    ensures x * w == 0
  {
  }

  /** Low limbs written one place down, the limb they displaced, and the carry make up the sum so far. */
  ghost predicate Displaced(s: seq<word>, cur: seq<word>, modulus: seq<word>, m: word, j: nat, low: word, carry: int) {
    && 1 <= j <= |modulus| && |s| == |cur| == |modulus| + 2
    && (forall i | j - 1 <= i < |s| :: cur[i] == s[i])
    && B * Value(cur[..j - 1]) + low + carry * Weight(j) == Value(s[..j]) + m * Value(modulus[..j])
  }

  lemma DisplacedStart(s: seq<word>, modulus: seq<word>, m: word, z: int)
    requires |modulus| > 0 && |s| == |modulus| + 2 && z == s[0] + m * modulus[0]
    ensures Displaced(s, s, modulus, m, 1, z % B, z / B)
  {
    SingleLimb(s[..1]);
    SingleLimb(modulus[..1]);
    ValueNothing(s);
    DivMod(z, B);
    assert Weight(1) == B;
  }

  lemma DisplacedStep(s: seq<word>, cur: seq<word>, cur': seq<word>, modulus: seq<word>, m: word, j: nat, low: word, carry: int,
                      z: int)
    requires Displaced(s, cur, modulus, m, j, low, carry) && j < |modulus|
    requires z == cur[j] + m * modulus[j] + carry && 0 <= z && cur' == cur[j - 1 := z % B]
    ensures Displaced(s, cur', modulus, m, j + 1, low, z / B)
  {
    hide Value, Weight;
    assert cur'[..j] == cur[..j - 1] + [z % B];
    ValueAppend(cur[..j - 1], z % B);
    ValuePrefix(s, j);
    ValuePrefix(modulus, j);
    WeightStep(j - 1);
    WeightStep(j);
    DivMod(z, B);
    DisplacedArithmetic(Value(cur[..j - 1]), low, carry, Value(s[..j]), m, Value(modulus[..j]), Weight(j - 1), s[j], modulus[j],
                        z, z % B, z / B);
  }

  lemma DisplacedArithmetic(p: int, low: int, carry: int, vs: int, m: int, vm: int, w: int, limb: int, d: int, z: int, rem: int,
                            quo: int)
    requires B * p + low + carry * (B * w) == vs + m * vm && z == limb + m * d + carry && z == quo * B + rem
    ensures B * (p + rem * w) + low + quo * (B * (B * w)) == vs + limb * (B * w) + m * (vm + d * (B * w))
  {
    var u := B * w;
    assert B * (rem * w) == rem * u;
    assert quo * (B * u) == (quo * B) * u;
    assert rem * u + (quo * B) * u == z * u;
    assert z * u == limb * u + (m * d) * u + carry * u;
    MulAssoc(m, d, u);
    assert m * (vm + d * u) == m * vm + m * (d * u);
  }

  lemma DisplacedEnd(s: seq<word>, cur: seq<word>, cur': seq<word>, modulus: seq<word>, m: word, low: word, carry: int, z: nat,
                     x: word, y: word)
    requires var n := |modulus|;
      && Displaced(s, cur, modulus, m, n, low, carry) && Value(s) + m * Value(modulus) < Weight(n + 2)
      && z == cur[n] + carry && x == z % B && y == (cur[n + 1] + z / B) % B
      && cur' == cur[..n - 1] + [x, y, 0]
    ensures Value(cur') * B + low == Value(s) + m * Value(modulus)
  {
    hide Value, Weight, Displaced;
    DisplacedAtEnd(s, cur, modulus, m, low, carry);
    var n := |modulus|;
    DisplacedTotal(n, cur[..n - 1], cur', low, carry, Value(s[..n]), m * Value(modulus), cur[n], cur[n + 1], z, x, y);
  }

  lemma DisplacedTotal(n: nat, p: seq<word>, out: seq<word>, low: word, carry: int, vs: nat, product: int, limb: word, high: word,
                       z: nat, x: word, y: word)
    requires n == |p| + 1 && B * Value(p) + low + carry * Weight(n) == vs + product && z == limb + carry
    requires vs + limb * Weight(n) + high * Weight(n + 1) + product < Weight(n + 2)
    requires x == z % B && y == (high + z / B) % B && out == p + [x, y, 0]
    ensures Value(out) * B + low == vs + limb * Weight(n) + high * Weight(n + 1) + product
  {
    hide Value, Weight;
    WeightStep(n - 1);
    WeightStep(n);
    WeightStep(n + 1);
    EndTotal(Value(p), low, carry, vs, product, Weight(n - 1), Weight(n), Weight(n + 1), limb, high, z);
    ThreeLimbs(p, out, x, y);
  }

  lemma EndTotal(p: int, low: int, carry: int, vs: int, product: int, w: int, w1: int, w2: int, limb: int, high: int, z: int)
    requires 0 < w && w1 == B * w && w2 == B * w1 && 0 <= p && 0 <= low && 0 <= z && 0 <= high
    requires B * p + low + carry * w1 == vs + product && z == limb + carry
    requires vs + limb * w1 + high * w2 + product < B * w2
    ensures high + z / B < B && (high + z / B) % B == high + z / B
    ensures (p + z % B * w + (high + z / B) * w1) * B + low == vs + limb * w1 + high * w2 + product
  {
    DivMod(z, B);
    EndArithmetic(p, low, carry, vs, product, w, w1, w2, limb, high, z, z % B, z / B);
    BelowBase(B * (p + z % B * w) + low, high + z / B, w2, vs + limb * w1 + high * w2 + product);
  }

  lemma ThreeLimbs(s: seq<word>, s': seq<word>, x: word, y: word)
    requires s' == s + [x, y, 0]
    ensures Value(s') == Value(s) + x * Weight(|s|) + y * Weight(|s| + 1)
  {
    hide Value, Weight;
    assert s' == ((s + [x]) + [y]) + [0];
    ValueAppend(s, x);
    ValueAppend(s + [x], y);
    ValueAppend((s + [x]) + [y], 0);
    assert 0 * Weight(|s| + 2) == 0;
  }

  lemma DisplacedAtEnd(s: seq<word>, cur: seq<word>, modulus: seq<word>, m: word, low: word, carry: int)
    requires Displaced(s, cur, modulus, m, |modulus|, low, carry)
    ensures var n := |modulus|;
      && n >= 1 && |s| == |cur| == n + 2
      && B * Value(cur[..n - 1]) + low + carry * Weight(n) == Value(s[..n]) + m * Value(modulus)
      && Value(s) == Value(s[..n]) + cur[n] * Weight(n) + cur[n + 1] * Weight(n + 1)
  {
    hide Value, Weight;
    var n := |modulus|;
    assert modulus[..n] == modulus;
    assert s[..n + 2] == s;
    ValuePrefix(s, n);
    ValuePrefix(s, n + 1);
  }

  lemma EndArithmetic(p: int, low: int, carry: int, vs: int, product: int, w: int, w1: int, w2: int, limb: int, high: int, z: int,
                      rem: int, quo: int)
    requires 0 < w && w1 == B * w && w2 == B * w1 && 0 <= p && 0 <= low && 0 <= rem
    requires B * p + low + carry * w1 == vs + product && z == limb + carry && z == quo * B + rem
    ensures 0 <= B * (p + rem * w) + low
    ensures B * (p + rem * w) + low + (high + quo) * w2 == vs + limb * w1 + high * w2 + product
    ensures B * (p + rem * w + (high + quo) * w1) + low == vs + limb * w1 + high * w2 + product
  {
    assert B * (rem * w) == rem * w1;
    assert quo * w2 == (quo * B) * w1;
    assert rem * w1 + (quo * B) * w1 == z * w1;
    assert z * w1 == limb * w1 + carry * w1;
    assert (high + quo) * w2 == high * w2 + quo * w2;
    assert B * ((high + quo) * w1) == (high + quo) * w2;
    MulMono(0, rem, w);
  }

  lemma BelowBase(x: int, top: int, w: int, total: int)
    requires 0 <= x && 0 < w && x + top * w == total < B * w
    ensures top < B
  {
    if top >= B {
      MulMono(B, top, w);
    }
  }

  // The reduction row of bignum_mont_cios_candidate: limb j goes to slot j - 1.
  method ReduceRow(work: array<word>, modulus: seq<word>, n: nat, m: word)
    requires n != 0 && work.Length == n + 2 && |modulus| == n
    requires Value(work[..]) + m * Value(modulus) < Weight(n + 2)
    modifies work
    ensures Value(work[..]) == (old(Value(work[..])) + m * Value(modulus)) / B
    ensures work[n + 1] == 0
  {
    hide Value, Weight, Displaced;
    ghost var s := work[..];
    var first: int := work[0];
    var z := first + m * modulus[0];
    DoubleWord(m, modulus[0], work[0], 0);
    var carry := z / B;
    ghost var low := z % B;
    DisplacedStart(s, modulus, m, z);
    for j := 1 to n
      invariant 0 <= carry < B && Displaced(s, work[..], modulus, m, j, low, carry)
    {
      var limb: int := work[j];
      z := limb + m * modulus[j] + carry;
      DoubleWord(m, modulus[j], work[j], carry);
      DivBound(z, B, 0, B);
      ghost var cur := work[..];
      work[j - 1] := z % B;
      DisplacedStep(s, cur, work[..], modulus, m, j, low, carry, z);
      carry := z / B;
    }
    ghost var cur := work[..];
    var top: int := work[n];
    z := top + carry;
    work[n - 1] := z % B;
    work[n] := (work[n + 1] + z / B) % B;
    work[n + 1] := 0;
    assert work[..] == cur[..n - 1] + [work[n - 1], work[n], 0];
    DisplacedEnd(s, cur, work[..], modulus, m, low, carry, z, work[n - 1], work[n]);
    DivModUnique(Value(s) + m * Value(modulus), B, Value(work[..]), low);
  }

  // The product row of bignum_mont_cios_candidate; the top limb is free.
  method ProductRow(work: array<word>, n: nat, m: word, x: seq<word>)
    requires work.Length == n + 2 && |x| == n && work[n + 1] == 0 && Value(work[..]) + m * Value(x) < Weight(n + 2)
    modifies work
    ensures Value(work[..]) == old(Value(work[..])) + m * Value(x)
  {
    hide Value, Weight, Region;
    ghost var s := work[..];
    var carry := MulAddRow(work, 0, n + 2, 0, m, x);
    ghost var s1 := work[..];
    RowFromZero(s, s1, m, x, carry);
    var top: int := work[n];
    var z := top + carry;
    work[n] := z % B;
    work[n + 1] := z / B;
    FreeTop(s1, work[..], n, carry, z);
    TopLimbs(s1, work[..], n, carry);
  }

  lemma FreeTop(s: seq<word>, s': seq<word>, n: nat, carry: word, z: int)
    requires |s| == n + 2 && s[n + 1] == 0 && z == s[n] + carry
    requires 0 <= z / B < B && s' == s[n := z % B][n + 1 := z / B]
    ensures s' == s[n := z % B][n + 1 := (s[n + 1] + z / B) % B]
  {
  }

  // bignum_mont_cios_candidate.
  method CiosCandidate(work: array<word>, a: seq<word>, b: seq<word>, modulus: seq<word>, n: nat, n0inv: word)
    returns (ok: bool)
    requires work.Length == n + 2 && |modulus| == n
    modifies work
    ensures ok <==> n != 0 && |a| <= n && |b| <= n
    ensures ok ==> Value(work[..]) == Cios(Value(a), Padded(b, n), Value(modulus), n0inv)
  {
    hide Value, Weight, Region, Round, Cios, Padded;
    if n == 0 || |a| > n || |b| > n {
      return false;
    }
    var aj, bi := Padded(a, n), Padded(b, n);
    PaddedValue(a, n);
    Clear(work, 0, n + 2);
    ValueZero(work[..]);
    CiosStart(aj, bi, modulus, n0inv);
    for i := 0 to n
      invariant Value(work[..]) == Cios(Value(aj), bi[..i], Value(modulus), n0inv) < 2 * Weight(n) && work[n + 1] == 0
    {
      ghost var t := Value(work[..]);
      RoundFits(t, Value(aj), bi[i], Value(modulus), n0inv, n);
      ProductRow(work, n, bi[i], aj);
      LowLimb(work[..]);
      var m := work[0] * n0inv % B;
      ReduceRow(work, modulus, n, m);
      CiosNext(aj, bi, modulus, n0inv, i, t);
    }
    assert bi[..n] == bi;
    return true;
  }

  /** On operands of n limbs the two forms leave the same limbs behind: the shift-free one refines the shifting one. */
  lemma CandidatesAgree(shift: seq<word>, free: seq<word>, a: seq<word>, b: seq<word>, modulus: seq<word>, n0inv: word)
    requires |a| == |b| == |modulus| && |shift| == |free| == |modulus| + 2
    requires Value(shift) == Cios(Value(a), b, Value(modulus), n0inv)
    requires Value(free) == Cios(Value(a), Padded(b, |modulus|), Value(modulus), n0inv)
    ensures shift == free
  {
    assert Padded(b, |b|) == b;
    ValueInjective(shift, free);
  }

  /** What either form leaves for an odd modulus: below 2N, and a * b after multiplication by B^n. */
  lemma CandidateIsProduct(candidate: seq<word>, a: seq<word>, b: seq<word>, modulus: seq<word>, n0inv: word)
    requires |a| <= |modulus| && |b| <= |modulus| && 0 < Value(modulus) && Cong(Value(modulus) * n0inv, -1, B)
    requires Value(candidate) == Cios(Value(a), Padded(b, |modulus|), Value(modulus), n0inv)
    ensures Cong(Value(candidate) * Weight(|modulus|), Value(a) * Value(b), Value(modulus))
    ensures Value(candidate) < Value(a) + Value(modulus)
    ensures Value(a) < Value(modulus) ==> Value(candidate) < 2 * Value(modulus)
  {
    CiosBound(Value(a), Padded(b, |modulus|), Value(modulus), n0inv);
    CiosCongruent(Value(a), Padded(b, |modulus|), Value(modulus), n0inv);
    PaddedValue(b, |modulus|);
  }

  /** The inverse of the low limb serves the whole modulus. */
  lemma LowLimbInverse(modulus: seq<word>, n0inv: word)
    requires |modulus| > 0
    ensures Cong(Value(modulus) * n0inv, -1, B) <==> Cong(modulus[0] * n0inv, -1, B)
  {
    hide Value;
    LowLimb(modulus);
    var v := Value(modulus);
    CongMod(v, B);
    CongScale(v, v % B, n0inv, B);
    CongSym(v * n0inv, v % B * n0inv, B);
    if Cong(v * n0inv, -1, B) {
      CongTrans(v % B * n0inv, v * n0inv, -1, B);
    }
    if Cong(v % B * n0inv, -1, B) {
      CongTrans(v * n0inv, v % B * n0inv, -1, B);
    }
  }

  // ---------- the constant that brings a number into Montgomery form ----------

  // benchmark_r2_doubling, on the values of its bignums: 64 n doublings with a conditional subtraction each.
  method R2Doubling(n: nat, modulus: seq<word>) returns (ok: bool, r2: nat)
    requires modulus != [] ==> modulus[|modulus| - 1] != 0
    ensures ok <==> n != 0 && |modulus| == n
    ensures ok ==> r2 < Weight(n) && 0 < Value(modulus)
    ensures ok && Value(modulus) != 1 ==> r2 == Weight(2 * n) % Value(modulus)
    ensures ok && Value(modulus) == 1 ==> r2 == 1
  {
    hide Value, Weight, Pow;
    r2 := 0;
    if n == 0 || |modulus| != n {
      return false, r2;
    }
    var v := Value(modulus);
    NonzeroTop(modulus);
    NoDoubling(v);
    r2 := 1;
    for i := 0 to 64 * n
      invariant v == 1 ==> r2 == 1
      invariant v != 1 ==> r2 == Pow(2, i) % v
    {
      if v != 1 {
        Doubling(r2, i, v);
      }
      r2 := 2 * r2;
      if r2 >= v {
        r2 := r2 - v;
      }
    }
    WeightIsPower(2 * n);
    DivMod(Weight(2 * n), v);
    return true, r2;
  }

  lemma NonzeroTop(s: seq<word>)
    requires s != [] && s[|s| - 1] != 0
    ensures 0 < Value(s) < Weight(|s|)
  {
    ValueBound(s);
    MulMono(1, s[|s| - 1], Weight(|s| - 1));
  }

  lemma NoDoubling(v: nat)
    requires 0 < v
    ensures v != 1 ==> Pow(2, 0) % v == 1
  {
    if v != 1 {
      DivModUnique(1, v, 0, 1);
    }
  }

  lemma Doubling(x: nat, i: nat, v: nat)
    requires v > 1 && x == Pow(2, i) % v
    ensures Pow(2, i + 1) % v == if 2 * x >= v then 2 * x - v else 2 * x
    ensures x < v
  {
    DivMod(Pow(2, i), v);
    var q := Pow(2, i) / v;
    assert 2 * (q * v) == (2 * q) * v;
    if 2 * x >= v {
      assert (2 * q + 1) * v == (2 * q) * v + v;
      DivModUnique(Pow(2, i + 1), v, 2 * q + 1, 2 * x - v);
    } else {
      DivModUnique(Pow(2, i + 1), v, 2 * q, 2 * x);
    }
  }

  /** The setup is right exactly when the modulus is not 1. */
  lemma R2Exact(n: nat, v: nat, r2: nat)
    requires 0 < v && (v != 1 ==> r2 == Weight(2 * n) % v) && (v == 1 ==> r2 == 1)
    ensures r2 == Weight(2 * n) % v <==> v != 1
  {
    if v == 1 {
      DivModUnique(Weight(2 * n), 1, Weight(2 * n), 0);
    }
  }
}
