/** The stage-1 products: squaring by diagonals and doubled cross products, and multiplication with propagated row carries. */
module Squaring {
  import opened Arith
  import opened Limbs
  import opened Karatsuba
  import opened Bignums

  // stage1_square_add_product.
  method SquareAddProduct(limbs: array<word>, count: nat, offset: nat, product: int) returns (ok: bool)
    requires count <= limbs.Length && 0 <= product < B * B
    modifies limbs
    ensures ok <==> offset < count && Value(Region(old(limbs[..]), 0, count)) + product * Weight(offset) < Weight(count)
    ensures ok ==>
      Value(Region(limbs[..], 0, count)) == Value(Region(old(limbs[..]), 0, count)) + product * Weight(offset)
    ensures offset >= count ==> limbs[..] == old(limbs[..])
    ensures SameOutside(old(limbs[..]), limbs[..], 0, count)
  {
    hide Region, Value, Weight, SameOutside;
    Untouched(limbs[..], count);
    if offset >= count {
      return false;
    }
    ghost var start := Value(Region(limbs[..], 0, count)) + product * Weight(offset);
    ghost var s := limbs[..];
    var i := offset;
    var sum := limbs[i] + product % B;
    SplitSum(limbs[i], product);
    limbs[i] := sum % B;
    var carry := product / B + sum / B;
    PropagateDouble(s, limbs[..], count, i, product);
    OneMore(s, s, limbs[..], count, i);
    i := i + 1;
    while carry != 0 && i < count
      invariant offset < i <= count && 0 <= carry <= B
      invariant Value(Region(limbs[..], 0, count)) + carry * Weight(i) == start
      invariant SameOutside(old(limbs[..]), limbs[..], 0, count)
    {
      s := limbs[..];
      sum := limbs[i] + carry % B;
      SplitSum(limbs[i], carry);
      limbs[i] := sum % B;
      PropagateDouble(s, limbs[..], count, i, carry);
      OneMore(old(limbs[..]), s, limbs[..], count, i);
      carry := carry / B + sum / B;
      i := i + 1;
    }
    DoubleCarryOut(Region(limbs[..], 0, count), carry, i, start);
    return carry == 0;
  }

  lemma Untouched(s: seq<word>, count: nat)
    ensures SameOutside(s, s, 0, count)
  {
  }

  lemma OneMore(start: seq<word>, s: seq<word>, s': seq<word>, count: nat, i: nat)
    requires i < count <= |s| && |s'| == |s| && SameOutside(start, s, 0, count) && s' == s[i := s'[i]]
    ensures SameOutside(start, s', 0, count)
  {
  }

  /** Adding the halves of a double word one after the other is adding the double word. */
  lemma SplitSum(limb: word, z: int)
    requires 0 <= z < B * B
    ensures (limb + z % B) % B == (limb + z) % B && z / B + (limb + z % B) / B == (limb + z) / B
    ensures 0 <= (limb + z) / B <= B
  {
    DivMod(z, B);
    DivMod(limb + z % B, B);
    DivModUnique(limb + z, B, z / B + (limb + z % B) / B, (limb + z % B) % B);
  }

  lemma PropagateDouble(s: seq<word>, s': seq<word>, count: nat, i: nat, carry: int)
    requires i < count <= |s| && 0 <= carry && s' == s[i := (s[i] + carry) % B]
    ensures Value(Region(s', 0, count)) + ((s[i] + carry) / B) * Weight(i + 1)
         == Value(Region(s, 0, count)) + carry * Weight(i)
  {
    hide Region, Value, Weight;
    StoreCarry(s, s', 0, count, i, carry, 0, s[i] + carry);
  }

  lemma DoubleCarryOut(s: seq<word>, carry: int, i: nat, total: int)
    requires 0 <= carry && Value(s) + carry * Weight(i) == total && (carry != 0 ==> i == |s|)
    ensures carry == 0 ==> total == Value(s)
    ensures carry == 0 <==> total < Weight(|s|)
  {
    ValueBound(s);
    if carry != 0 {
      MulMono(1, carry, Weight(i));
    }
  }

  // ---------- the sum of all products of two limbs ----------

  /** The part of the value of x above limb i. */
  ghost function Above(x: seq<word>, i: nat): int
    requires i <= |x|
  {
    Value(x) - Value(x[..i])
  }

  lemma AboveStep(x: seq<word>, i: nat)
    requires i < |x|
    ensures Above(x, i) == x[i] * Weight(i) + Above(x, i + 1)
    ensures 0 <= Above(x, i + 1)
  {
    ValuePrefix(x, i);
    ValueSplit(x, i + 1);
    MulMono(0, Value(x[i + 1..]), Weight(i + 1));
  }

  lemma AboveEnds(x: seq<word>)
    ensures Above(x, 0) == Value(x) && Above(x, |x|) == 0
  {
    assert x[..|x|] == x;
  }

  /** The rows before i, the diagonal of row i, and its cross products before j, each counted twice. */
  ghost function Accumulated(x: seq<word>, i: nat, j: nat): int
    requires i < j <= |x|
  {
    Value(x) * Value(x) - Above(x, i) * Above(x, i) + x[i] * x[i] * Weight(2 * i)
      + 2 * (x[i] * Weight(i) * (Value(x[..j]) - Value(x[..i + 1])))
  }

  lemma Diagonal(x: seq<word>, i: nat)
    requires i < |x|
    ensures Accumulated(x, i, i + 1)
         == Value(x) * Value(x) - Above(x, i) * Above(x, i) + x[i] * x[i] * Weight(2 * i)
  {
  }

  lemma CrossStep(x: seq<word>, i: nat, j: nat)
    requires i < j < |x|
    ensures Accumulated(x, i, j + 1) == Accumulated(x, i, j) + 2 * (x[i] * x[j] * Weight(i + j))
    ensures 0 <= x[i] * x[j] * Weight(i + j)
  {
    hide Value, Weight, Above;
    ValuePrefix(x, j);
    WeightAdd(i, j);
    var u: int, v: int := x[i], x[j];
    CrossArithmetic(u, v, Weight(i), Weight(j), Value(x[..j]) - Value(x[..i + 1]));
    MulBound(u, B, v, B);
    MulMono(0, u * v, Weight(i + j));
  }

  lemma CrossArithmetic(u: int, v: int, wi: int, wj: int, t: int)
    ensures u * wi * (t + v * wj) == u * wi * t + u * v * (wi * wj)
  {
    assert u * wi * (t + v * wj) == u * wi * t + (u * wi) * (v * wj);
    SquareTerm(u, v, 1);
    calc {
      (u * wi) * (v * wj);
      { MulAssoc(u * wi, v, wj); }
      ((u * wi) * v) * wj;
      { assert (u * wi) * v == (u * v) * wi; }
      ((u * v) * wi) * wj;
      { MulAssoc(u * v, wi, wj); }
      (u * v) * (wi * wj);
    }
  }

  lemma RowEnd(x: seq<word>, i: nat)
    requires i < |x|
    ensures Accumulated(x, i, |x|) == Value(x) * Value(x) - Above(x, i + 1) * Above(x, i + 1)
    ensures 0 <= Above(x, i + 1) * Above(x, i + 1)
  {
    hide Value, Weight;
    AboveStep(x, i);
    WeightAdd(i, i);
    assert x[..|x|] == x;
    BinomialSquare(x[i], Weight(i), Above(x, i + 1));
    MulBound(0, Above(x, i + 1), 0, Above(x, i + 1));
  }

  lemma BinomialSquare(u: int, w: int, t: int)
    ensures (u * w + t) * (u * w + t) == u * u * (w * w) + 2 * (u * w * t) + t * t
  {
    SquareTerm(u, u, w);
    var p := u * w;
    assert (p + t) * (p + t) == p * p + 2 * (p * t) + t * t;
  }

  /** No partial sum of the row passes the square, so none overflows 2n + 1 limbs. */
  lemma {:induction false} RowBound(x: seq<word>, i: nat, j: nat)
    requires i < j <= |x|
    ensures Accumulated(x, i, j) <= Value(x) * Value(x) < Weight(2 * |x| + 1)
    decreases |x| - j
  {
    hide Value, Weight, Above, Accumulated;
    if j == |x| {
      RowEnd(x, i);
      ProductBound(x, x);
      WeightMono(2 * |x|, 2 * |x| + 1);
    } else {
      CrossStep(x, i, j);
      RowBound(x, i, j + 1);
    }
  }

  // One row of stage1_square.
  method SquareRow(limbs: array<word>, x: seq<word>, i: nat) returns (ok: bool)
    requires i < |x| && limbs.Length == 2 * |x| + 1
    requires Value(limbs[..]) == Value(x) * Value(x) - Above(x, i) * Above(x, i)
    modifies limbs
    ensures ok && Value(limbs[..]) == Value(x) * Value(x) - Above(x, i + 1) * Above(x, i + 1)
  {
    hide Region, Value, Weight, Above, Accumulated;
    var n := |x|;
    Diagonal(x, i);
    RowBound(x, i, i + 1);
    WholeRegion(limbs[..]);
    DoubleWord(x[i], x[i], 0, 0);
    var u: int := x[i];
    var diagonal := u * u;
    ok := SquareAddProduct(limbs, 2 * n + 1, 2 * i, diagonal);
    if !ok {
      return;
    }
    WholeRegion(limbs[..]);
    for j := i + 1 to n
      invariant ok && Value(limbs[..]) == Accumulated(x, i, j)
    {
      var v: int := x[j];
      var cross := u * v;
      DoubleWord(x[i], x[j], 0, 0);
      CrossStep(x, i, j);
      RowBound(x, i, j + 1);
      WholeRegion(limbs[..]);
      ok := SquareAddProduct(limbs, 2 * n + 1, i + j, cross);
      if !ok {
        return;
      }
      WholeRegion(limbs[..]);
      ok := SquareAddProduct(limbs, 2 * n + 1, i + j, cross);
      if !ok {
        return;
      }
      WholeRegion(limbs[..]);
    }
    RowEnd(x, i);
  }

  lemma WholeRegion(s: seq<word>)
    ensures Region(s, 0, |s|) == s
  {
  }

  // stage1_square.
  method Square(out: Bignum, a: Bignum) returns (ok: bool)
    requires out.Valid() && a.Valid()
    modifies out
    ensures ok && out.Valid() && out.Normalized() && fresh(out.limbs)
    ensures Value(out.Words()) == Value(old(a.Words())) * Value(old(a.Words()))
  {
    hide Region, Value, Weight, Above, Accumulated;
    var n := a.length;
    var x := a.limbs[..n];
    var limbs := new word[if n == 0 then 0 else 2 * n + 1](i => 0);
    AboveEnds(x);
    ValueZero(limbs[..]);
    if n == 0 {
      ValueNothing(x);
      assert x[..0] == x == limbs[..];
      out.limbs := limbs;
      out.length := 0;
      assert out.Words() == x;
      return true;
    }
    for i := 0 to n
      invariant Value(limbs[..]) == Value(x) * Value(x) - Above(x, i) * Above(x, i)
    {
      ok := SquareRow(limbs, x, i);
      if !ok {
        return;
      }
    }
    out.limbs := limbs;
    out.length := 2 * n + 1;
    assert out.Words() == limbs[..];
    out.Normalize();
    return true;
  }

  // ---------- multiplication with propagated row carries ----------

  /** A carry that is still there stands below the total. */
  lemma CarryPlace(value: nat, carry: nat, j: nat, total: int, k: nat)
    requires 0 < carry && value + carry * Weight(j) == total < Weight(k)
    ensures j < k
  {
    MulMono(1, carry, Weight(j));
    if j >= k {
      WeightMono(k, j);
    }
  }

  // One row of stage1_mul. Its propagation loop has no bound of its own: the total keeps it inside the buffer.
  method MultiplyRow(limbs: array<word>, i: nat, m: word, y: seq<word>)
    requires i + |y| + 1 < limbs.Length && Value(limbs[..]) + m * Value(y) * Weight(i) < Weight(i + |y| + 1)
    modifies limbs
    ensures Value(limbs[..]) == old(Value(limbs[..])) + m * Value(y) * Weight(i)
  {
    hide Region, Value, Weight;
    ghost var total, n := Value(limbs[..]) + m * Value(y) * Weight(i), limbs.Length;
    WholeRegion(limbs[..]);
    var carry := MulAddRow(limbs, 0, limbs.Length, i, m, y);
    WholeRegion(limbs[..]);
    var j: nat := i + |y|;
    while carry != 0
      invariant 0 <= carry < B && Value(limbs[..]) + carry * Weight(j) == total
      decreases n - j
    {
      CarryPlace(Value(limbs[..]), carry, j, total, i + |y| + 1);
      ghost var s := limbs[..];
      var limb: int := limbs[j];
      var current := limb + carry;
      limbs[j] := current % B;
      WholeRegion(s);
      WholeRegion(limbs[..]);
      PropagateDouble(s, limbs[..], n, j, carry);
      carry := current / B;
      j := j + 1;
    }
  }

  // stage1_mul.
  method Multiply(out: Bignum, a: Bignum, b: Bignum)
    requires out.Valid() && a.Valid() && b.Valid()
    modifies out
    ensures out.Valid() && out.Normalized() && fresh(out.limbs)
    ensures Value(out.Words()) == Value(old(a.Words())) * Value(old(b.Words()))
  {
    hide Region, Value, Weight;
    var x, y := a.limbs[..a.length], b.limbs[..b.length];
    ValueNothing(x);
    ValueNothing(y);
    if |x| == 0 || |y| == 0 {
      assert x[..0] == x || y[..0] == y;
      var nothing := new word[0];
      out.limbs := nothing;
      out.length := 0;
      assert out.Words() == x[..0];
      return;
    }
    var limbs := new word[|x| + |y| + 1](i => 0);
    ValueZero(limbs[..]);
    for i := 0 to |x|
      invariant Value(limbs[..]) == Value(x[..i]) * Value(y)
    {
      PartialFits(x, y, i);
      MultiplyRow(limbs, i, x[i], y);
    }
    assert x[..|x|] == x;
    out.limbs := limbs;
    out.length := |x| + |y| + 1;
    assert out.Words() == limbs[..];
    out.Normalize();
  }

  /** The rows up to i fit i + 1 limbs more than the other factor. */
  lemma PartialFits(x: seq<word>, y: seq<word>, i: nat)
    requires i < |x|
    ensures Value(x[..i + 1]) * Value(y) == Value(x[..i]) * Value(y) + x[i] * Value(y) * Weight(i) < Weight(i + |y| + 1)
  {
    hide Value, Weight;
    ValuePrefix(x, i);
    RowProduct(Value(x[..i]), x[i], Weight(i), Value(y));
    ProductBound(x[..i + 1], y);
    assert i + 1 + |y| == i + |y| + 1;
  }
}
