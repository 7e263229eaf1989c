/** Reduction by normalized base-2^32 long division: crypto_bignum_mod. */
module LongDivision {
  import opened Arith
  import opened Limbs
  import opened Karatsuba
  import opened Bignums

  // ---------- the quotient digit ----------

  /** The limbs of a window from the top down: three of the dividend, two of the divisor. */
  datatype Tops = Tops(u0: word, u1: word, u2: word, v1: word, v2: word) {
    function Dividend(): int {
      (u0 * B + u1) * B + u2
    }

    function Divisor(): int {
      v1 * B + v2
    }

    /** The divisor is normalized and the window's quotient is a single limb or just past it. */
    predicate Ok() {
      0x8000_0000 <= v1 && u0 <= v1
    }

    /** qhat is the quotient of the tops, capped at the largest limb. */
    ghost predicate Estimate(qhat: int) {
      && 0 <= qhat < B
      && qhat * Divisor() <= Dividend()
      && (qhat == B - 1 || Dividend() < (qhat + 1) * Divisor())
    }
  }

  lemma FirstGuess(t: Tops, qhat: int, rhat: int)
    requires t.Ok() && qhat == (t.u0 * B + t.u1) / t.v1 && rhat == (t.u0 * B + t.u1) % t.v1
    ensures qhat * t.v1 + rhat == t.u0 * B + t.u1 && 0 <= rhat < t.v1 && 0 <= qhat
    ensures t.Dividend() < (qhat + 1) * t.Divisor()
  {
    var n := t.u0 * B + t.u1;
    DivMod(n, t.v1);
    var x := (qhat + 1) * t.v1;
    assert x == qhat * t.v1 + t.v1;
    GuessTop(qhat, t.v1, t.v2, n, t.u2);
  }

  lemma GuessTop(qhat: int, v1: int, v2: int, n: int, u2: int)
    requires 0 <= qhat && 0 <= v2 && u2 < B && n < qhat * v1 + v1
    ensures n * B + u2 < (qhat + 1) * (v1 * B + v2)
  {
    assert (qhat + 1) * (v1 * B + v2) == (qhat + 1) * (v1 * B) + (qhat + 1) * v2;
    assert (qhat + 1) * (v1 * B) == ((qhat + 1) * v1) * B;
    MulMono(0, qhat + 1, v2);
  }

  /** The test of the correction loop compares qhat times the divisor's top with the dividend's top. */
  lemma TestMeans(t: Tops, qhat: int, rhat: int)
    requires qhat * t.v1 + rhat == t.u0 * B + t.u1
    ensures qhat * t.v2 <= rhat * B + t.u2 <==> qhat * t.Divisor() <= t.Dividend()
  {
    assert qhat * (t.v1 * B + t.v2) == (qhat * t.v1) * B + qhat * t.v2;
  }

  lemma LargeRemainder(t: Tops, qhat: int, rhat: int)
    requires t.Ok() && qhat * t.v1 + rhat == t.u0 * B + t.u1 && B <= rhat && 0 <= qhat
    ensures qhat < B && qhat * t.v2 <= rhat * B + t.u2
  {
    MulMono(t.u0, t.v1, B);
    if qhat >= B {
      MulMono(B, qhat, t.v1);
    }
    MulBound(qhat, B, t.v2, B);
    MulMono(B, rhat, B);
  }

  // The estimate and its correction loop.
  method EstimateDigit(t: Tops) returns (qhat: int)
    requires t.Ok()
    ensures t.Estimate(qhat)
  {
    var numerator: int := t.u0 * B + t.u1;
    qhat := numerator / t.v1;
    var rhat := numerator % t.v1;
    FirstGuess(t, qhat, rhat);
    while qhat >= B || qhat * t.v2 > rhat * B + t.u2
      invariant 0 <= rhat < B && 0 <= qhat && qhat * t.v1 + rhat == t.u0 * B + t.u1
      invariant B <= qhat + 1 || t.Dividend() < (qhat + 1) * t.Divisor()
      decreases B - rhat
    {
      TestMeans(t, qhat, rhat);
      Decrement(qhat, t.v1, t.v2, rhat * B + t.u2);
      qhat := qhat - 1;
      rhat := rhat + t.v1;
      if rhat >= B {
        LargeRemainder(t, qhat, rhat);
        break;
      }
    }
    TestMeans(t, qhat, rhat);
  }

  lemma Decrement(qhat: int, v1: int, v2: int, bound: int)
    requires 0 <= qhat && 0 <= bound && (qhat >= B || qhat * v2 > bound)
    ensures 0 < qhat && (qhat - 1) * v1 + v1 == qhat * v1
  {
  }

  /** The estimate from the tops is the true quotient digit or one more. */
  lemma EstimateIsClose(t: Tops, qhat: int, w: int, v: int, scale: int)
    requires t.Ok() && t.Estimate(qhat) && 0 < scale && 0 < v && 0 <= w < B * v
    requires t.Divisor() * scale <= v < (t.Divisor() + 1) * scale
    requires t.Dividend() * scale <= w < (t.Dividend() + 1) * scale
    ensures w / v <= qhat <= w / v + 1
  {
    var q, d := w / v, t.Divisor();
    DivMod(w, v);
    DivBound(w, v, 0, B);
    NotAbove(q, d, t.Dividend(), scale, v, w);
    if q > qhat {
      MulMono(qhat + 1, q, d);
    }
    NotFarAbove(qhat, q, d, t.Dividend(), scale, v, w);
  }

  /** The true digit passes the test on the tops. */
  lemma NotAbove(q: int, d: int, u: int, scale: int, v: int, w: int)
    requires 0 <= q && 0 < scale && q * v <= w && d * scale <= v && w < (u + 1) * scale
    ensures q * d <= u
  {
    MulMono(d * scale, v, q);
    assert (d * scale) * q == (q * d) * scale;
    assert v * q == q * v;
    if q * d > u {
      MulMono(u + 1, q * d, scale);
    }
  }

  /** For so large a divisor the estimate is at most one too large. */
  lemma NotFarAbove(qhat: int, q: int, d: int, u: int, scale: int, v: int, w: int)
    requires 0 <= qhat < B && B <= d && 0 < scale && 0 <= q && 0 < v
    requires qhat * d <= u && u * scale <= w < q * v + v && v < (d + 1) * scale
    ensures qhat <= q + 1
  {
    if qhat > 0 {
      var k := qhat - 1;
      assert q * v + v == (q + 1) * v;
      MulMono(v, (d + 1) * scale, k);
      assert ((d + 1) * scale) * k == (k * (d + 1)) * scale;
      assert v * k == k * v;
      MulMono(qhat * d, u, scale);
      assert k * (d + 1) == qhat * d - d + k;
      MulMono(k * (d + 1), qhat * d, scale);
      assert k * v <= w;
      if k >= q + 1 {
        MulMono(q + 1, k, v);
      }
    }
  }

  // ---------- one window ----------

  /** Multiply-and-subtract, limb by limb: the borrow out of limb i stands for its weight. */
  lemma SubtractStep(s: seq<word>, s': seq<word>, off: nat, len: nat, i: nat, qhat: int, vn: seq<word>, borrow: int, w0: int,
                     product: int, c: int)
    requires off + len <= |s| && i < |vn| && i < len && 0 <= qhat < B && 0 <= borrow < B
    requires Value(Region(s, off, len)) - borrow * Weight(i) == w0 - qhat * Value(vn[..i])
    requires product == qhat * vn[i] + borrow && c == (if s[off + i] < product % B then 1 else 0)
    requires s' == s[off + i := (s[off + i] - product % B) % B]
    ensures 0 <= product / B + c < B
    ensures Value(Region(s', off, len)) - (product / B + c) * Weight(i + 1) == w0 - qhat * Value(vn[..i + 1])
  {
    hide Region, Value, Weight;
    DivMod(product, B);
    BorrowFits(qhat, vn[i], borrow, product, c);
    var limb := s[off + i];
    WrappedDifference(limb, product % B, c);
    RegionUpdate(s, off, len, i, (limb - product % B) % B);
    ValuePrefix(vn, i);
    WeightStep(i);
    SubtractArithmetic(qhat, vn[i], borrow, product, product % B, product / B, c, Weight(i), Value(vn[..i]));
  }

  lemma WrappedDifference(limb: word, low: int, c: int)
    requires 0 <= low < B && c == (if limb < low then 1 else 0)
    ensures (limb - low) % B == limb - low + c * B
  {
    DivModUnique(limb - low, B, -c, limb - low + c * B);
  }

  lemma BorrowFits(qhat: int, x: word, borrow: int, product: int, c: int)
    requires 0 <= qhat < B && 0 <= borrow < B && product == qhat * x + borrow && (product % B == 0 ==> c == 0) && 0 <= c <= 1
    ensures 0 <= product && 0 <= product / B + c < B
  {
    MulBound(qhat, B - 1, x, B - 1);
    DivMod(product, B);
  }

  lemma SubtractArithmetic(qhat: int, x: int, borrow: int, product: int, low: int, high: int, c: int, w: int, prefix: int)
    requires product == qhat * x + borrow && product == high * B + low
    ensures (-low + c * B) * w - (high + c) * (B * w) + borrow * w == -(qhat * (prefix + x * w)) + qhat * prefix
  {
    assert (-low + c * B) * w == -(low * w) + (c * B) * w;
    assert (high + c) * (B * w) == (high * B) * w + (c * B) * w;
    assert low * w + (high * B) * w == product * w;
    assert product * w == (qhat * x) * w + borrow * w;
    MulAssoc(qhat, x, w);
    assert qhat * (prefix + x * w) == qhat * prefix + qhat * (x * w);
  }

  // The multiply-and-subtract loop and the top limb.
  method MultiplySubtract(un: array<word>, offset: nat, vn: seq<word>, qhat: int) returns (underflow: bool)
    requires offset + |vn| + 1 <= un.Length && 0 <= qhat < B
    modifies un
    ensures var n, w := |vn|, Value(Region(old(un[..]), offset, |vn| + 1));
      && Value(Region(un[..], offset, n + 1)) == w - qhat * Value(vn) + (if underflow then Weight(n + 1) else 0)
    ensures SameOutside(old(un[..]), un[..], offset, offset + |vn| + 1)
  {
    hide Region, Value, Weight;
    var n := |vn|;
    ghost var w := Value(Region(un[..], offset, n + 1));
    var borrow := 0;
    ValueNothing(vn);
    for i := 0 to n
      invariant 0 <= borrow < B
      invariant Value(Region(un[..], offset, n + 1)) - borrow * Weight(i) == w - qhat * Value(vn[..i])
      invariant SameOutside(old(un[..]), un[..], offset, offset + n + 1)
    {
      var product := qhat * vn[i] + borrow;
      var low := product % B;
      var minuend := un[offset + i];
      ghost var s := un[..];
      un[offset + i] := (minuend - low) % B;
      SubtractStep(s, un[..], offset, n + 1, i, qhat, vn, borrow, w, product, if minuend < low then 1 else 0);
      borrow := product / B;
      if minuend < low {
        borrow := borrow + 1;
      }
    }
    assert vn[..n] == vn;
    var high := un[offset + n];
    underflow := high < borrow;
    ghost var s := un[..];
    un[offset + n] := (high - borrow) % B;
    TopBorrow(s, un[..], offset, n, borrow);
  }

  lemma TopBorrow(s: seq<word>, s': seq<word>, off: nat, n: nat, borrow: int)
    requires off + n + 1 <= |s| && 0 <= borrow < B && s' == s[off + n := (s[off + n] - borrow) % B]
    ensures Value(Region(s', off, n + 1))
         == Value(Region(s, off, n + 1)) - borrow * Weight(n) + (if s[off + n] < borrow then Weight(n + 1) else 0)
  {
    hide Region, Value, Weight;
    var high, c := s[off + n], if s[off + n] < borrow then 1 else 0;
    assert (high - borrow) % B == high - borrow + c * B;
    RegionUpdate(s, off, n + 1, n, (high - borrow) % B);
    WeightStep(n);
    assert (high - borrow + c * B - high) * Weight(n) == -(borrow * Weight(n)) + c * (B * Weight(n));
  }

  // The correcting addition; the carry out of the top limb is dropped.
  method AddBack(un: array<word>, offset: nat, vn: seq<word>) returns (ghost dropped: int)
    requires offset + |vn| + 1 <= un.Length
    modifies un
    ensures 0 <= dropped <= 1
    ensures Value(Region(un[..], offset, |vn| + 1)) + dropped * Weight(|vn| + 1)
         == Value(Region(old(un[..]), offset, |vn| + 1)) + Value(vn)
    ensures SameOutside(old(un[..]), un[..], offset, offset + |vn| + 1)
  {
    hide Region, Value, Weight;
    var n := |vn|;
    ghost var w := Value(Region(un[..], offset, n + 1));
    var carry := 0;
    ValueNothing(vn);
    for i := 0 to n
      invariant 0 <= carry <= 1
      invariant Value(Region(un[..], offset, n + 1)) + carry * Weight(i) == w + Value(vn[..i])
      invariant SameOutside(old(un[..]), un[..], offset, offset + n + 1)
    {
      var sum := un[offset + i] + vn[i] + carry;
      ghost var s := un[..];
      un[offset + i] := sum % B;
      AddStep(s, un[..], offset, n + 1, i, vn, carry, sum);
      carry := sum / B;
    }
    assert vn[..n] == vn;
    var top: int := un[offset + n];
    ghost var s := un[..];
    un[offset + n] := (top + carry) % B;
    dropped := (top + carry) / B;
    PropagateStep(s, un[..], offset, n + 1, n, carry, top + carry);
  }

  lemma AddStep(s: seq<word>, s': seq<word>, off: nat, len: nat, i: nat, vn: seq<word>, carry: int, sum: int)
    requires off + len <= |s| && i < |vn| && i < len && 0 <= carry <= 1
    requires sum == s[off + i] + vn[i] + carry && s' == s[off + i := sum % B]
    ensures 0 <= sum / B <= 1
    ensures Value(Region(s', off, len)) + (sum / B) * Weight(i + 1) + Value(vn[..i])
         == Value(Region(s, off, len)) + carry * Weight(i) + Value(vn[..i + 1])
  {
    hide Region, Value, Weight;
    StoreCarry(s, s', off, len, i, carry, vn[i], sum);
    ValuePrefix(vn, i);
  }

  /** The tops of a window of n + 1 limbs over a divisor of n limbs. */
  function TopsOf(w: seq<word>, vn: seq<word>): Tops
    requires 2 <= |vn| && |w| == |vn| + 1
  {
    var n := |vn|;
    Tops(w[n], w[n - 1], w[n - 2], vn[n - 1], vn[n - 2])
  }

  /** A value lies between its top limbs and the next larger top, at the weight of the limbs below. */
  lemma TwoTops(s: seq<word>)
    requires 2 <= |s|
    ensures var n := |s|; var d := s[n - 1] * B + s[n - 2];
      d * Weight(n - 2) <= Value(s) < (d + 1) * Weight(n - 2)
  {
    hide Value, Weight;
    var n := |s|;
    assert s[..n] == s;
    ValuePrefix(s, n - 1);
    ValuePrefix(s, n - 2);
    ValueBound(s[..n - 2]);
    WeightStep(n - 2);
    TwoArithmetic(s[n - 1], s[n - 2], Weight(n - 2));
  }

  lemma TwoArithmetic(x: int, y: int, w: int)
    ensures (x * B + y) * w == x * (B * w) + y * w
    ensures (x * B + y + 1) * w == x * (B * w) + y * w + w
  {
    assert x * (B * w) == (x * B) * w;
    assert (x * B + y) * w == (x * B) * w + y * w;
    assert (x * B + y + 1) * w == (x * B + y) * w + w;
  }

  lemma OneTop(s: seq<word>)
    requires 1 <= |s|
    ensures var n := |s|; s[n - 1] * Weight(n - 1) <= Value(s) < (s[n - 1] + 1) * Weight(n - 1)
  {
    hide Value, Weight;
    var n := |s|;
    var x: int := s[n - 1];
    assert s[..n] == s;
    ValuePrefix(s, n - 1);
    ValueBound(s[..n - 1]);
    assert (x + 1) * Weight(n - 1) == x * Weight(n - 1) + Weight(n - 1);
  }

  lemma ThreeTops(s: seq<word>)
    requires 3 <= |s|
    ensures var n := |s|; var d := (s[n - 1] * B + s[n - 2]) * B + s[n - 3];
      d * Weight(n - 3) <= Value(s) < (d + 1) * Weight(n - 3)
  {
    hide Value, Weight;
    var n := |s|;
    var x: int, y: int, z: int, w := s[n - 1], s[n - 2], s[n - 3], Weight(n - 3);
    assert s[..n] == s;
    ValuePrefix(s, n - 1);
    ValuePrefix(s, n - 2);
    ValuePrefix(s, n - 3);
    ValueBound(s[..n - 3]);
    WeightStep(n - 3);
    WeightStep(n - 2);
    ThreeArithmetic(x, y, z, w);
  }

  lemma ThreeArithmetic(x: int, y: int, z: int, w: int)
    ensures ((x * B + y) * B + z) * w == x * (B * (B * w)) + y * (B * w) + z * w
    ensures ((x * B + y) * B + z + 1) * w == x * (B * (B * w)) + y * (B * w) + z * w + w
  {
    var d := (x * B + y) * B + z;
    assert (d + 1) * w == d * w + w;
    assert d * w == ((x * B) * B) * w + (y * B) * w + z * w;
    assert x * (B * (B * w)) == ((x * B) * B) * w;
    assert y * (B * w) == (y * B) * w;
  }

  lemma TopsAreOk(w: seq<word>, vn: seq<word>)
    requires 2 <= |vn| && |w| == |vn| + 1 && 0x8000_0000 <= vn[|vn| - 1] && Value(w) < B * Value(vn)
    ensures TopsOf(w, vn).Ok() && 0 < Value(vn)
  {
    hide Value, Weight;
    var n := |vn|;
    OneTop(vn);
    OneTop(w);
    WeightStep(n - 1);
    var u: int, v: int := w[n], vn[n - 1];
    assert B * ((v + 1) * Weight(n - 1)) == (v + 1) * Weight(n);
    if u > v {
      MulMono(v + 1, u, Weight(n));
    }
    MulMono(1, v, Weight(n - 1));
  }

  /** The digit estimated from the tops is the window's true digit or one more. */
  lemma WindowEstimate(w: seq<word>, vn: seq<word>, qhat: int)
    requires 2 <= |vn| && |w| == |vn| + 1 && 0x8000_0000 <= vn[|vn| - 1] && Value(w) < B * Value(vn)
    requires TopsOf(w, vn).Ok() && TopsOf(w, vn).Estimate(qhat) && 0 < Value(vn)
    ensures Value(w) / Value(vn) <= qhat <= Value(w) / Value(vn) + 1
  {
    hide Value, Weight;
    var n := |vn|;
    TwoTops(vn);
    ThreeTops(w);
    EstimateIsClose(TopsOf(w, vn), qhat, Value(w), Value(vn), Weight(n - 2));
  }

  /** Subtracting one multiple too many shows as an underflow and is undone by one addition. */
  lemma WindowRemainder(w: int, v: int, qhat: int, underflow: bool, mid: int, dropped: int, end: int, weight: int)
    requires 0 < v < weight && 0 <= w && w / v <= qhat <= w / v + 1
    requires mid == w - qhat * v + (if underflow then weight else 0) && 0 <= mid < weight
    requires if underflow then end + dropped * weight == mid + v && 0 <= dropped <= 1 else end == mid
    requires 0 <= end < weight
    ensures end == w % v
  {
    var q := w / v;
    DivMod(w, v);
    assert (q + 1) * v == q * v + v;
    if qhat == q {
      assert qhat * v == q * v;
    } else {
      assert qhat * v == (q + 1) * v;
    }
  }

  // One round of the division: the window's value is replaced by its remainder.
  method ReduceWindow(un: array<word>, offset: nat, vn: seq<word>)
    requires 2 <= |vn| && offset + |vn| + 1 <= un.Length && 0x8000_0000 <= vn[|vn| - 1]
    requires Value(Region(un[..], offset, |vn| + 1)) < B * Value(vn)
    modifies un
    ensures 0 < Value(vn)
    ensures Value(Region(un[..], offset, |vn| + 1)) == Value(Region(old(un[..]), offset, |vn| + 1)) % Value(vn)
    ensures SameOutside(old(un[..]), un[..], offset, offset + |vn| + 1)
  {
    hide Value, Weight;
    var n := |vn|;
    ghost var window := Region(un[..], offset, n + 1);
    TopsAreOk(window, vn);
    var tops := Tops(un[offset + n], un[offset + n - 1], un[offset + n - 2], vn[n - 1], vn[n - 2]);
    assert tops == TopsOf(window, vn);
    var qhat := EstimateDigit(tops);
    WindowEstimate(window, vn, qhat);
    ValueBound(vn);
    WeightMono(n, n + 1);
    var underflow := MultiplySubtract(un, offset, vn, qhat);
    ghost var mid := Region(un[..], offset, n + 1);
    ghost var dropped := 0;
    ValueBound(mid);
    if underflow {
      dropped := AddBack(un, offset, vn);
    }
    ValueBound(Region(un[..], offset, n + 1));
    WindowRemainder(Value(window), Value(vn), qhat, underflow, Value(mid), dropped, Value(Region(un[..], offset, n + 1)),
                    Weight(n + 1));
  }

  // ---------- all windows ----------

  lemma WindowIsSmall(s: seq<word>, offset: nat, n: nat, v: int)
    requires offset + n + 1 <= |s| && Value(Region(s, offset + 1, n)) < v
    ensures Value(Region(s, offset, n + 1)) < B * v
  {
    hide Value, Weight;
    var w := Region(s, offset, n + 1);
    ValueSplit(w, 1);
    SingleLimbValue(w[..1]);
    assert w[1..] == Region(s, offset + 1, n);
  }

  lemma SingleLimbValue(s: seq<word>)
    requires |s| == 1
    ensures Value(s) == s[0] && Weight(1) == B
  {
    assert Value(s[..0]) == 0 && Weight(0) == 1;
  }

  /** A value below B^n leaves limb n zero. */
  lemma TopIsZero(s: seq<word>, n: nat)
    requires |s| == n + 1 && Value(s) < Weight(n)
    ensures s[n] == 0 && Value(s[..n]) == Value(s)
  {
    assert Value(s) == Value(s[..n]) + s[n] * Weight(n);
    if s[n] > 0 {
      MulMono(1, s[n], Weight(n));
    }
  }

  /** The value of an array in terms of a window and what lies outside it. */
  lemma WindowInWhole(s: seq<word>, s': seq<word>, offset: nat, len: nat)
    requires offset + len <= |s| && SameOutside(s, s', offset, offset + len)
    ensures Value(s') - Value(s) == (Value(Region(s', offset, len)) - Value(Region(s, offset, len))) * Weight(offset)
  {
    hide Value, Weight, Region, SameOutside;
    OutsideParts(s, s', offset, len);
    ThreeParts(s, offset, len);
    ThreeParts(s', offset, len);
    var x: int, y: int, w: int := Value(Region(s', offset, len)), Value(Region(s, offset, len)), Weight(offset);
    assert (x - y) * w == x * w - y * w;
  }

  lemma OutsideParts(s: seq<word>, s': seq<word>, offset: nat, len: nat)
    requires offset + len <= |s| && SameOutside(s, s', offset, offset + len)
    ensures |s| == |s'| && s[..offset] == s'[..offset] && s[offset + len..] == s'[offset + len..]
  {
  }

  lemma ThreeParts(s: seq<word>, offset: nat, len: nat)
    requires offset + len <= |s|
    ensures Value(s) == Value(s[..offset]) + Value(Region(s, offset, len)) * Weight(offset)
                      + Value(s[offset + len..]) * Weight(offset + len)
  {
    hide Value, Weight;
    ValueSplit(s, offset + len);
    ValueSplit(s[..offset + len], offset);
    assert s[..offset + len][..offset] == s[..offset] && s[..offset + len][offset..] == Region(s, offset, len);
  }

  /** Before the window at offset is reduced. */
  ghost predicate Reduced(s: seq<word>, start: int, offset: nat, n: nat, v: int) {
    && 0 < v && offset + n <= |s|
    && Value(Region(s, offset, n)) < v
    && (forall i | offset + n <= i < |s| :: s[i] == 0)
    && Cong(Value(s), start, v)
  }

  lemma ReducedStep(s: seq<word>, s': seq<word>, start: int, offset: nat, n: nat, v: int)
    requires offset + n + 1 <= |s| && 0 < v < Weight(n) && Cong(Value(s), start, v)
    requires forall i | offset + 1 + n <= i < |s| :: s[i] == 0
    requires SameOutside(s, s', offset, offset + n + 1)
    requires Value(Region(s', offset, n + 1)) == Value(Region(s, offset, n + 1)) % v
    ensures Reduced(s', start, offset, n, v)
  {
    hide Value, Weight;
    var w, w' := Region(s, offset, n + 1), Region(s', offset, n + 1);
    DivMod(Value(w), v);
    TopIsZero(w', n);
    assert w'[..n] == Region(s', offset, n);
    WindowInWhole(s, s', offset, n + 1);
    var q := Value(w) / v;
    assert (Value(w') - Value(w)) * Weight(offset) == (-q * Weight(offset)) * v by {
      assert Value(w') - Value(w) == -(q * v);
      assert -(q * v) * Weight(offset) == (-q * Weight(offset)) * v;
    }
    CongIntro(Value(s'), Value(s), v, -q * Weight(offset));
    CongTrans(Value(s'), Value(s), start, v);
  }

  // The outer loop of the division, after normalization.
  method LongDivide(un: array<word>, vn: seq<word>, m: nat)
    requires 2 <= |vn| && un.Length == m + |vn| + 1 && 0x8000_0000 <= vn[|vn| - 1]
    requires Value(un[m + 1..]) < Value(vn)
    modifies un
    ensures 0 < Value(vn) && Value(un[..|vn|]) == old(Value(un[..])) % Value(vn)
  {
    hide Value, Weight, Region;
    var n := |vn|;
    ghost var start, v := Value(un[..]), Value(vn);
    ValueBound(vn);
    LastWindow(un[..], m, n);
    CongRefl(start, v);
    for j := m + 1 downto 0
      invariant Reduced(un[..], start, j, n, v)
    {
      ghost var s := un[..];
      WindowIsSmall(s, j, n, v);
      ReduceWindow(un, j, vn);
      ReducedStep(s, un[..], start, j, n, v);
    }
    RemainderIs(un[..], start, n, v);
  }

  lemma LastWindow(s: seq<word>, m: nat, n: nat)
    requires |s| == m + n + 1
    ensures Region(s, m + 1, n) == s[m + 1..]
  {
  }

  lemma RemainderIs(s: seq<word>, start: int, n: nat, v: int)
    requires Reduced(s, start, 0, n, v)
    ensures Value(s[..n]) == start % v
  {
    hide Value, Weight;
    assert Region(s, 0, n) == s[..n];
    ValueSplit(s, n);
    ValueZero(s[n..]);
    assert Value(s[n..]) * Weight(n) == 0;
    CongSameMod(Value(s), start, v);
    DivModUnique(Value(s), v, 0, Value(s));
  }

  // ---------- normalization ----------

  lemma HighBit()
    ensures Pow(2, 31) == 0x8000_0000
  {
    Pow2Values();
    PowAdd(2, 31, 1);
    assert Pow(2, 1) == 2;
  }

  // bignum_clz32.
  method Clz32(value: word) returns (count: nat)
    requires 0 < value
    ensures count < 32 && 0x8000_0000 <= value * Pow(2, count) < B
  {
    hide Pow;
    var v := value;
    count := 0;
    ShiftsByOne(value, 0);
    while v < 0x8000_0000
      invariant 0 < v < B && v == value * Pow(2, count)
      decreases B - v
    {
      ShiftsByOne(value, count);
      v := v * 2 % B;
      count := count + 1;
    }
    if count >= 32 {
      PowMono(2, 32, count);
      Pow2Values();
      MulMono(1, value, Pow(2, count));
    }
  }

  lemma ShiftsByOne(value: nat, count: nat)
    ensures value * Pow(2, count + 1) == 2 * (value * Pow(2, count)) && value * Pow(2, 0) == value
  {
    assert Pow(2, count + 1) == 2 * Pow(2, count);
    MulAssoc(2, Pow(2, count), value);
  }

  // The left shift by less than a word of both operands; the carry is what leaves the top limb.
  method ShiftLeft(out: array<word>, s: seq<word>, shift: nat) returns (carry: int)
    requires |s| <= out.Length && shift < 32
    modifies out
    ensures 0 <= carry < Pow(2, shift)
    ensures Value(out[..|s|]) + carry * Weight(|s|) == Value(s) * Pow(2, shift)
    ensures forall i | |s| <= i < out.Length :: out[i] == old(out[i])
  {
    hide Value, Weight;
    var factor := Pow(2, shift);
    FactorBound(shift);
    carry := 0;
    ValueNothing(s);
    ValueNothing(out[..]);
    for i := 0 to |s|
      invariant 0 <= carry < factor
      invariant Value(out[..i]) + carry * Weight(i) == Value(s[..i]) * factor
      invariant forall k | |s| <= k < out.Length :: out[k] == old(out[k])
    {
      var z := s[i] * factor + carry;
      ghost var before := out[..i];
      out[i] := z % B;
      assert out[..i + 1] == before + [z % B];
      ShiftStep(before, s, i, factor, carry, z);
      carry := z / B;
    }
    assert s[..|s|] == s;
  }

  lemma FactorBound(shift: nat)
    requires shift < 32
    ensures 1 <= Pow(2, shift) <= 0x8000_0000 && B % Pow(2, shift) == 0 && B == Pow(2, shift) * Pow(2, 32 - shift)
  {
    hide Pow;
    HighBit();
    PowPositive(2, shift);
    PowMono(2, shift, 31);
    PowAdd(2, shift, 32 - shift);
    Pow2Values();
    DivModUnique(B, Pow(2, shift), Pow(2, 32 - shift), 0);
  }

  lemma ShiftStep(before: seq<word>, s: seq<word>, i: nat, factor: int, carry: int, z: int)
    requires i < |s| && |before| == i && 0 <= carry < factor && z == s[i] * factor + carry
    requires Value(before) + carry * Weight(i) == Value(s[..i]) * factor
    ensures 0 <= z / B < factor
    ensures Value(before + [z % B]) + (z / B) * Weight(i + 1) == Value(s[..i + 1]) * factor
  {
    hide Value, Weight;
    MulMono(s[i], B - 1, factor);
    MulMono(0, s[i], factor);
    assert (B - 1) * factor + factor == factor * B;
    DivBound(z, B, 0, factor);
    DivMod(z, B);
    ValueAppend(before, z % B);
    ValuePrefix(s, i);
    WeightStep(i);
    ShiftArithmetic(Value(s[..i]), s[i], factor, carry, z, z % B, z / B, Weight(i));
  }

  lemma ShiftArithmetic(prefix: int, limb: int, factor: int, carry: int, z: int, low: int, high: int, w: int)
    requires z == limb * factor + carry && z == high * B + low
    ensures low * w + high * (B * w) == carry * w + (prefix + limb * w) * factor - prefix * factor
  {
    assert high * (B * w) == (high * B) * w;
    assert low * w + (high * B) * w == z * w;
    assert z * w == (limb * factor) * w + carry * w;
    assert (prefix + limb * w) * factor == prefix * factor + (limb * w) * factor;
    assert (limb * w) * factor == (limb * factor) * w;
  }

  // The right shift of the remainder, from the top limb down.
  method ShiftRight(out: array<word>, un: seq<word>, shift: nat)
    requires out.Length == |un| && shift < 32
    modifies out
    ensures 0 < Pow(2, shift) && Value(out[..]) == Value(un) / Pow(2, shift)
  {
    hide Value, Weight;
    var factor, rest := Pow(2, shift), Pow(2, 32 - shift);
    FactorBound(shift);
    var carry := 0;
    ghost var low := 0;
    ValueNothing(un);
    assert out[|un|..] == un[|un|..] == un[..0];
    for i := |un| downto 0
      invariant 0 <= low < factor && carry == low * rest
      invariant Value(out[i..]) * factor + low == Value(un[i..])
    {
      ghost var after := out[i + 1..];
      CarryRoom(un[i], carry, low, factor, rest);
      out[i] := un[i] / factor + carry;
      assert out[i..] == [out[i]] + after;
      assert un[i..] == [un[i]] + un[i + 1..];
      UnshiftStep(after, un[i + 1..], un[i], out[i], low, factor, rest);
      carry := un[i] % factor * rest;
      low := un[i] % factor;
    }
    assert out[0..] == out[..] && un[0..] == un;
    DivModUnique(Value(un), factor, Value(out[..]), low);
  }

  /** The bits shifted out of the limb above fill the bits the shift frees. */
  lemma CarryRoom(limb: word, carry: int, low: int, factor: int, rest: int)
    requires 0 < factor && B == factor * rest && 0 <= low < factor && carry == low * rest
    ensures 0 < rest && 0 <= limb / factor < rest && 0 <= limb / factor + carry < B
    ensures 0 <= limb % factor < factor
  {
    DivMod(limb, factor);
    if rest <= 0 {
      MulMono(rest, 0, factor);
    }
    assert rest * factor == B;
    DivBound(limb, factor, 0, rest);
    MulMono(low + 1, factor, rest);
    assert (low + 1) * rest == low * rest + rest;
    MulMono(0, low, rest);
  }

  lemma UnshiftStep(after: seq<word>, above: seq<word>, limb: word, out: word, low: int, factor: int, rest: int)
    requires 0 < factor && B == factor * rest && out == limb / factor + low * rest
    requires Value(after) * factor + low == Value(above)
    ensures Value([out] + after) * factor + limb % factor == Value([limb] + above)
  {
    hide Value, Weight;
    ValueConcat([out], after);
    ValueConcat([limb], above);
    SingleLimbValue([out]);
    SingleLimbValue([limb]);
    DivMod(limb, factor);
    UnshiftArithmetic(Value(after), Value(above), limb / factor, limb % factor, limb, low, factor, rest);
  }

  lemma UnshiftArithmetic(after: int, above: int, quo: int, rem: int, limb: int, low: int, factor: int, rest: int)
    requires limb == quo * factor + rem && B == factor * rest && after * factor + low == above
    ensures (quo + low * rest + after * B) * factor + rem == limb + above * B
  {
    assert (quo + low * rest + after * B) * factor == quo * factor + (low * rest) * factor + (after * B) * factor;
    assert (low * rest) * factor == low * (factor * rest) by {
      MulAssoc(low, factor, rest);
      MulAssoc(low, rest, factor);
      assert rest * factor == factor * rest;
    }
    assert (after * B) * factor == (after * factor) * B;
  }

  // memcpy of a whole operand.
  method CopyWords(out: array<word>, s: seq<word>)
    requires |s| <= out.Length
    modifies out
    ensures out[..|s|] == s
    ensures forall i | |s| <= i < out.Length :: out[i] == old(out[i])
  {
    for i := 0 to |s|
      invariant out[..i] == s[..i]
      invariant forall k | |s| <= k < out.Length :: out[k] == old(out[k])
    {
      out[i] := s[i];
    }
  }

  // The two branches that scale an operand.
  method Scale(out: array<word>, s: seq<word>, shift: nat) returns (carry: int)
    requires |s| <= out.Length && shift < 32
    modifies out
    ensures 0 <= carry < Pow(2, shift)
    ensures Value(out[..|s|]) + carry * Weight(|s|) == Value(s) * Pow(2, shift)
    ensures forall i | |s| <= i < out.Length :: out[i] == old(out[i])
  {
    if shift == 0 {
      CopyWords(out, s);
      carry := 0;
    } else {
      carry := ShiftLeft(out, s, shift);
    }
  }

  /** Scaling by the leading zeros of the top limb loses nothing and sets the top bit. */
  lemma ScaledDivisor(modulus: seq<word>, vn: seq<word>, shift: nat, carry: int)
    requires |modulus| == |vn| >= 1 && shift < 32 && 0 <= carry
    requires 0x8000_0000 <= modulus[|modulus| - 1] * Pow(2, shift) < B
    requires Value(vn) + carry * Weight(|vn|) == Value(modulus) * Pow(2, shift)
    ensures Value(vn) == Value(modulus) * Pow(2, shift) && 0x8000_0000 <= vn[|vn| - 1]
  {
    hide Value, Weight, Pow;
    var n, f, rest := |vn|, Pow(2, shift), Pow(2, 32 - shift);
    var top: int := modulus[n - 1];
    FactorBound(shift);
    OneTop(modulus);
    OneTop(vn);
    WeightStep(n - 1);
    TopsScaled(Value(modulus), Value(vn), carry, top, vn[n - 1], f, rest, Weight(n - 1));
  }

  lemma TopsScaled(v: int, v': int, carry: int, top: int, top': int, f: int, rest: int, w: int)
    requires 0 < w && 1 <= f && B == f * rest && 0 <= carry && 0 <= v'
    requires top * w <= v < (top + 1) * w && 0x8000_0000 <= top * f < B
    requires v' + carry * (B * w) == v * f && v' < (top' + 1) * w
    ensures carry == 0 && 0x8000_0000 <= top'
  {
    if top >= rest {
      MulMono(rest, top, f);
    }
    MulMono(top + 1, rest, f);
    MulStrict(v, (top + 1) * w, f);
    assert ((top + 1) * w) * f == ((top + 1) * f) * w;
    MulMono((top + 1) * f, B, w);
    if carry >= 1 {
      MulMono(1, carry, B * w);
    }
    assert v' + carry * (B * w) == v * f && carry * (B * w) < B * w;
    MulMono(top * w, v, f);
    assert (top * w) * f == (top * f) * w;
    MulMono(0x8000_0000, top * f, w);
    if top' + 1 <= 0x8000_0000 {
      MulMono(top' + 1, 0x8000_0000, w);
    }
  }

  /** The scaled dividend with its carry limb, and its first window. */
  lemma ScaledDividend(a: seq<word>, un: seq<word>, vn: seq<word>, m: nat, shift: nat, carry: int)
    requires |un| == |a| + 1 == m + |vn| + 1 && 1 <= |vn| && shift < 32 && 0 <= carry < Pow(2, shift)
    requires un[|a|] == carry && Value(un[..|a|]) + carry * Weight(|a|) == Value(a) * Pow(2, shift)
    requires 0x8000_0000 <= vn[|vn| - 1]
    ensures Value(un) == Value(a) * Pow(2, shift) && Value(un[m + 1..]) < Value(vn)
  {
    hide Value, Weight, Pow;
    assert un == un[..|a|] + [un[|a|]];
    ValueAppend(un[..|a|], un[|a|]);
    FactorBound(shift);
    SmallerTop(un[m + 1..], vn);
  }

  lemma SmallerTop(s: seq<word>, t: seq<word>)
    requires |s| == |t| >= 1 && s[|s| - 1] < t[|t| - 1]
    ensures Value(s) < Value(t)
  {
    hide Value, Weight;
    OneTop(s);
    OneTop(t);
    MulMono(s[|s| - 1] + 1, t[|t| - 1], Weight(|t| - 1));
  }

  lemma ScaledRemainder(a: nat, v: nat, f: nat)
    requires 0 < v && 0 < f
    ensures 0 < v * f && (a * f) % (v * f) == (a % v) * f && ((a % v) * f) / f == a % v
  {
    DivMod(a, v);
    var q, r := a / v, a % v;
    MulStrict(0, v, f);
    assert (q * v + r) * f == (q * v) * f + r * f;
    MulAssoc(q, v, f);
    MulMono(0, r, f);
    MulStrict(r, v, f);
    DivModUnique(a * f, v * f, q, r * f);
    DivModUnique(r * f, f, r, 0);
  }

  // The division branch of crypto_bignum_mod.
  method ReduceLong(a: seq<word>, modulus: seq<word>) returns (remainder: array<word>)
    requires 2 <= |modulus| <= |a| && modulus[|modulus| - 1] != 0
    ensures fresh(remainder) && remainder.Length == |modulus|
    ensures 0 < Value(modulus) && Value(remainder[..]) == Value(a) % Value(modulus)
  {
    hide Value, Weight, Pow;
    var n := |modulus|;
    var vn, un := new word[n](i => 0), new word[|a| + 1](i => 0);
    var shift := Clz32(modulus[n - 1]);
    var dropped := Scale(vn, modulus, shift);
    assert vn[..n] == vn[..];
    ScaledDivisor(modulus, vn[..], shift, dropped);
    var carry := Scale(un, a, shift);
    FactorBound(shift);
    ghost var low := un[..|a|];
    un[|a|] := carry;
    assert un[..][..|a|] == low;
    ScaledDividend(a, un[..], vn[..], |a| - n, shift, carry);
    LongDivide(un, vn[..], |a| - n);
    PositiveFactor(Value(modulus), Pow(2, shift), Value(vn[..]));
    ScaledRemainder(Value(a), Value(modulus), Pow(2, shift));
    remainder := new word[n](i => 0);
    if shift == 0 {
      CopyWords(remainder, un[..n]);
      NoShift();
      assert remainder[..n] == remainder[..];
    } else {
      ShiftRight(remainder, un[..n], shift);
    }
  }

  lemma NoShift()
    ensures Pow(2, 0) == 1
  {
  }

  lemma PositiveFactor(v: nat, f: nat, product: int)
    requires product == v * f && 0 < product
    ensures 0 < v && 0 < f
  {
  }

  // bignum_mod_u32.
  method ModU32(a: seq<word>, v: word) returns (r: word)
    requires 0 < v
    ensures r == Value(a) % v
  {
    hide Value, Weight;
    var rest: int := 0;
    ValueNothing(a);
    assert a[|a|..] == a[..0];
    for i := |a| downto 0
      invariant 0 <= rest < v && rest == Value(a[i..]) % v
    {
      ModStep(a, i, v, rest);
      rest := (rest * B + a[i]) % v;
    }
    assert a[0..] == a;
    r := rest;
  }

  lemma ModStep(a: seq<word>, i: nat, v: word, r: int)
    requires i < |a| && 0 < v && r == Value(a[i + 1..]) % v
    ensures (r * B + a[i]) % v == Value(a[i..]) % v
  {
    hide Value, Weight;
    assert a[i..] == [a[i]] + a[i + 1..];
    ValueConcat([a[i]], a[i + 1..]);
    SingleLimbValue([a[i]]);
    var rest := Value(a[i + 1..]);
    CongMod(rest, v);
    CongScale(r, rest, B, v);
    CongRefl(a[i], v);
    CongAdd(r * B, rest * B, a[i], a[i], v);
    CongSameMod(r * B + a[i], rest * B + a[i], v);
  }

  ghost predicate NoLeadingZero(s: seq<word>) {
    s == [] || s[|s| - 1] != 0
  }

  lemma LongerIsLarger(a: seq<word>, b: seq<word>)
    requires NoLeadingZero(a) && |b| < |a|
    ensures Value(b) < Value(a)
  {
    hide Value, Weight;
    OneTop(a);
    ValueBound(b);
    WeightMono(|b|, |a| - 1);
    MulMono(1, a[|a| - 1], Weight(|a| - 1));
  }

  /** Equal above limb i, the order is decided at limb i. */
  lemma DecidedAt(a: seq<word>, b: seq<word>, i: nat)
    requires |a| == |b| && i < |a| && a[i + 1..] == b[i + 1..] && a[i] < b[i]
    ensures Value(a) < Value(b)
  {
    hide Value, Weight;
    ValueSplit(a, i + 1);
    ValueSplit(b, i + 1);
    OneTop(a[..i + 1]);
    OneTop(b[..i + 1]);
    MulMono(a[i] + 1, b[i], Weight(i));
  }

  // crypto_bignum_compare.
  method Compare(a: seq<word>, b: seq<word>) returns (c: int)
    requires NoLeadingZero(a) && NoLeadingZero(b)
    ensures c < 0 <==> Value(a) < Value(b)
    ensures c == 0 <==> Value(a) == Value(b)
  {
    hide Value, Weight;
    if |a| < |b| {
      LongerIsLarger(b, a);
      return -1;
    }
    if |a| > |b| {
      LongerIsLarger(a, b);
      return 1;
    }
    for i := |a| downto 0
      invariant a[i..] == b[i..]
    {
      if a[i] < b[i] {
        DecidedAt(a, b, i);
        return -1;
      }
      if a[i] > b[i] {
        DecidedAt(b, a, i);
        return 1;
      }
      assert a[i..] == [a[i]] + a[i + 1..] && b[i..] == [b[i]] + b[i + 1..];
    }
    assert a == a[0..] && b == b[0..];
    return 0;
  }

  // crypto_bignum_mod.
  method Mod(out: Bignum, a: Bignum, modulus: Bignum) returns (ok: bool)
    requires out.Valid() && a.Valid() && modulus.Valid() && a.Normalized() && modulus.Normalized()
    requires (out != a ==> out.limbs != a.limbs) && (out != modulus ==> out.limbs != modulus.limbs)
    modifies out, out.limbs
    ensures ok <==> old(Value(modulus.Words())) != 0
    ensures out.Valid() && (!ok ==> out.Words() == old(out.Words()))
    ensures ok ==> out.Normalized() && Value(out.Words()) == old(Value(a.Words())) % old(Value(modulus.Words()))
  {
    hide Value, Weight;
    var x, v := a.limbs[..a.length], modulus.limbs[..modulus.length];
    if modulus.length == 0 {
      ValueNothing(v);
      assert v[..0] == v;
      return false;
    }
    LongerIsLarger(v, []);
    EmptyValue();
    var c := Compare(x, v);
    if c < 0 {
      DivModUnique(Value(x), Value(v), 0, Value(x));
      if out != a {
        CopyBignum(out, a);
      }
      return true;
    }
    if modulus.length == 1 {
      SingleLimbValue(v);
      var r := ModU32(x, v[0]);
      SetWord(out, r);
      return true;
    }
    if |x| < |v| {
      LongerIsLarger(v, x);
    }
    var remainder := ReduceLong(x, v);
    out.limbs := remainder;
    out.length := modulus.length;
    assert remainder[..out.length] == remainder[..];
    out.Normalize();
    return true;
  }

  lemma EmptyValue()
    ensures Value([]) == 0
  {
  }

  // crypto_bignum_copy, for two different objects.
  method CopyBignum(out: Bignum, a: Bignum)
    requires out.Valid() && a.Valid() && out != a && out.limbs != a.limbs
    modifies out, out.limbs
    ensures out.Valid() && out.Words() == old(a.Words())
  {
    var s := a.limbs[..a.length];
    out.Reserve(|s|);
    CopyWords(out.limbs, s);
    out.length := |s|;
  }

  // crypto_bignum_set_u64, for a value of one word.
  method SetWord(out: Bignum, value: word)
    requires out.Valid()
    modifies out, out.limbs
    ensures out.Valid() && out.Normalized() && Value(out.Words()) == value
  {
    if value == 0 {
      out.length := 0;
      return;
    }
    out.Reserve(1);
    out.limbs[0] := value;
    out.length := 1;
    SingleLimbValue(out.limbs[..1]);
  }

  // ---------- the reference reduction, bit by bit ----------

  /** What is left of a without its i low bits. */
  function Without(a: nat, i: nat): nat {
    if i == 0 then a else Without(a, i - 1) / 2
  }

  function BitLength(a: nat): nat {
    if a == 0 then 0 else 1 + BitLength(a / 2)
  }

  /** The fewest bits that hold a. */
  lemma {:induction false} BitLengthLeast(a: nat)
    ensures a < Pow(2, BitLength(a)) && (if a == 0 then BitLength(a) == 0 else Pow(2, BitLength(a) - 1) <= a)
  {
    if a > 1 {
      BitLengthLeast(a / 2);
    } else if a == 1 {
      assert BitLength(1) == 1 + BitLength(0);
    }
  }

  lemma {:induction false} WithoutHalf(a: nat, i: nat)
    ensures Without(a, i + 1) == Without(a / 2, i)
  {
    if i > 0 {
      WithoutHalf(a, i - 1);
    }
  }

  lemma {:induction false} WithoutAll(a: nat)
    ensures Without(a, BitLength(a)) == 0
  {
    if a > 0 {
      WithoutAll(a / 2);
      WithoutHalf(a, BitLength(a / 2));
    }
  }

  lemma BitStep(high: nat, bit: nat, r: int, modulus: nat)
    requires 0 < modulus && r == high % modulus && 0 <= bit <= 1
    ensures var x := 2 * r + bit;
      0 <= r < modulus && (2 * high + bit) % modulus == if x >= modulus then x - modulus else x
  {
    DivMod(high, modulus);
    var q, x := high / modulus, 2 * r + bit;
    assert 2 * (q * modulus) == (2 * q) * modulus;
    if x >= modulus {
      assert (2 * q + 1) * modulus == (2 * q) * modulus + modulus;
      DivModUnique(2 * high + bit, modulus, 2 * q + 1, x - modulus);
    } else {
      DivModUnique(2 * high + bit, modulus, 2 * q, x);
    }
  }

  // benchmark_mod_bitwise, on the values of its bignums.
  method ModBitwise(a: nat, modulus: nat) returns (ok: bool, r: int)
    ensures ok <==> modulus != 0
    ensures ok ==> r == a % modulus
  {
    r := 0;
    if modulus == 0 {
      return false, r;
    }
    if a < modulus {
      DivModUnique(a, modulus, 0, a);
      return true, a;
    }
    WithoutAll(a);
    DivModUnique(0, modulus, 0, 0);
    for i := BitLength(a) downto 0
      invariant r == Without(a, i) % modulus
    {
      BitStep(Without(a, i + 1), Without(a, i) % 2, r, modulus);
      r := 2 * r;
      if Without(a, i) % 2 != 0 {
        r := r + 1;
      }
      if r >= modulus {
        r := r - modulus;
      }
    }
    return true, r;
  }
}
