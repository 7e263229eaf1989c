/** Naturals as little-endian sequences of 32-bit limbs, and the row kernel of every product. */
module Limbs {
  import opened Arith

  const B := 0x1_0000_0000

  type word = x: int | 0 <= x < B

  /** B to the power k. */
  function Weight(k: nat): (w: nat)
    ensures 0 < w
  {
    if k == 0 then 1 else B * Weight(k - 1)
  }

  function Value(s: seq<word>): nat {
    if s == [] then 0 else Value(s[..|s| - 1]) + s[|s| - 1] * Weight(|s| - 1)
  }

  lemma {:induction false} WeightAdd(j: nat, k: nat)
    ensures Weight(j + k) == Weight(j) * Weight(k)
  {
    if j > 0 {
      WeightAdd(j - 1, k);
      MulAssoc(B, Weight(j - 1), Weight(k));
    }
  }

  lemma {:induction false} WeightIsPower(k: nat)
    ensures Weight(k) == Pow(2, 32 * k)
  {
    if k > 0 {
      WeightIsPower(k - 1);
      Pow2Values();
      PowAdd(2, 32, 32 * (k - 1));
    }
  }

  lemma {:induction false} WeightMono(j: nat, k: nat)
    requires j <= k
    ensures Weight(j) <= Weight(k)
  {
    WeightAdd(j, k - j);
    MulMono(1, Weight(k - j), Weight(j));
  }

  lemma ValueAppend(s: seq<word>, x: word)
    ensures Value(s + [x]) == Value(s) + x * Weight(|s|)
  {
    assert (s + [x])[..|s|] == s;
  }

  /** One more limb of a prefix. */
  lemma ValuePrefix(s: seq<word>, j: nat)
    requires j < |s|
    ensures Value(s[..j + 1]) == Value(s[..j]) + s[j] * Weight(j)
  {
    assert s[..j + 1] == s[..j] + [s[j]];
    ValueAppend(s[..j], s[j]);
  }

  lemma {:induction false} ValueConcat(a: seq<word>, b: seq<word>)
    ensures Value(a + b) == Value(a) + Value(b) * Weight(|a|)
  {
    if b == [] {
      assert a + b == a;
    } else {
      var x, b' := b[|b| - 1], b[..|b| - 1];
      assert a + b == (a + b') + [x];
      ValueConcat(a, b');
      ValueAppend(a + b', x);
      WeightAdd(|a|, |b'|);
      SplitTerm(Value(b'), x, Weight(|b'|), Weight(|a|));
    }
  }

  lemma SplitTerm(v: int, x: int, w: int, u: int)
    ensures (v + x * w) * u == v * u + x * (u * w)
  {
    assert (v + x * w) * u == v * u + (x * w) * u;
    MulAssoc(x, u, w);
    MulAssoc(x, w, u);
  }

  lemma {:induction false} ValueBound(s: seq<word>)
    ensures Value(s) < Weight(|s|)
  {
    if s != [] {
      var k := |s| - 1;
      ValueBound(s[..k]);
      TopTerm(Value(s[..k]), s[k], Weight(k));
    }
  }

  lemma TopTerm(v: int, x: int, w: int)
    requires 0 <= v < w && 0 <= x < B
    ensures v + x * w < B * w
  {
    MulMono(x + 1, B, w);
  }

  /** Writing one limb moves the value by that limb's weight. */
  lemma {:induction false} ValueUpdate(s: seq<word>, i: nat, x: word)
    requires i < |s|
    ensures Value(s[i := x]) == Value(s) + (x - s[i]) * Weight(i)
  {
    var k := |s| - 1;
    if i == k {
      assert s[i := x][..k] == s[..k];
      assert (x - s[i]) * Weight(i) == x * Weight(i) - s[i] * Weight(i);
    } else {
      ValueUpdate(s[..k], i, x);
      assert s[i := x][..k] == s[..k][i := x];
    }
  }

  lemma {:induction false} ValueZero(s: seq<word>)
    requires forall i | 0 <= i < |s| :: s[i] == 0
    ensures Value(s) == 0
  {
    if s != [] {
      ValueZero(s[..|s| - 1]);
    }
  }

  lemma ValueSplit(s: seq<word>, k: nat)
    requires k <= |s|
    ensures Value(s) == Value(s[..k]) + Value(s[k..]) * Weight(k)
  {
    assert s == s[..k] + s[k..];
    ValueConcat(s[..k], s[k..]);
  }

  /** Equally many limbs with equal values are the same limbs. */
  lemma {:induction false} ValueInjective(a: seq<word>, b: seq<word>)
    requires |a| == |b| && Value(a) == Value(b)
    ensures a == b
  {
    if a != [] {
      var k := |a| - 1;
      ValueBound(a[..k]);
      ValueBound(b[..k]);
      DivModUnique(Value(a), Weight(k), a[k], Value(a[..k]));
      DivModUnique(Value(b), Weight(k), b[k], Value(b[..k]));
      ValueInjective(a[..k], b[..k]);
      assert a == a[..k] + [a[k]];
      assert b == b[..k] + [b[k]];
    }
  }

  // ---------- regions of an array ----------

  /** The limbs of the region of length len at off. */
  function Region(s: seq<word>, off: nat, len: nat): (r: seq<word>)
    requires off + len <= |s|
    ensures |r| == len
  {
    s[off..off + len]
  }

  /** s' agrees with s outside the indices from lo up to hi. */
  ghost predicate SameOutside(s: seq<word>, s': seq<word>, lo: int, hi: int) {
    |s| == |s'| && forall i | 0 <= i < |s| && !(lo <= i < hi) :: s'[i] == s[i]
  }

  lemma RegionUpdate(s: seq<word>, off: nat, len: nat, k: nat, x: word)
    requires off + len <= |s| && k < len
    ensures Value(Region(s[off + k := x], off, len)) == Value(Region(s, off, len)) + (x - s[off + k]) * Weight(k)
  {
    assert Region(s[off + k := x], off, len) == Region(s, off, len)[k := x];
    ValueUpdate(Region(s, off, len), k, x);
  }

  // ---------- one row of a product ----------

  /** The double word of one multiply-and-add, and its split, fit their words. */
  lemma DoubleWord(m: word, x: word, y: word, carry: word)
    ensures 0 <= m * x + y + carry < B * B
  {
    MulBound(m, B - 1, x, B - 1);
  }

  /** Storing the low half of limb + carry + more at the limb and carrying the high half adds more at the limb's weight. */
  lemma CarryStep(value: int, value': int, carry: int, more: int, limb: int, low: int, high: int, w: int, w': int)
    requires value' == value + (low - limb) * w && limb + carry + more == high * B + low && w' == B * w
    ensures value' + high * w' == value + carry * w + more * w
  {
    assert high * w' == (high * B) * w;
    assert (low - limb) * w == low * w - limb * w;
    assert low * w + (high * B) * w == (limb + carry + more) * w;
    assert (limb + carry + more) * w == limb * w + carry * w + more * w;
  }

  /** The same on a region: z is stored at limb k and its high half is carried into limb k + 1. */
  lemma StoreCarry(s: seq<word>, s': seq<word>, off: nat, len: nat, k: nat, carry: int, more: int, z: int)
    requires off + len <= |s| && k < len && z == s[off + k] + carry + more && s' == s[off + k := z % B]
    ensures Value(Region(s', off, len)) + (z / B) * Weight(k + 1)
         == Value(Region(s, off, len)) + carry * Weight(k) + more * Weight(k)
  {
    hide Region, Value, Weight;
    DivMod(z, B);
    RegionUpdate(s, off, len, k, z % B);
    WeightStep(k);
    CarryStep(Value(Region(s, off, len)), Value(Region(s', off, len)), carry, more, s[off + k], z % B, z / B, Weight(k), Weight(k + 1));
  }

  lemma RowStep(m: int, x: int, mx: int, prefix: int, prefix': int, wi: int, wj: int, w: int)
    requires mx == m * x && prefix' == prefix + x * wj && w == wi * wj
    ensures m * prefix' * wi == m * prefix * wi + mx * w
  {
    calc {
      m * prefix' * wi;
      (m * prefix + m * (x * wj)) * wi;
      m * prefix * wi + (m * (x * wj)) * wi;
      { MulAssoc(m, x, wj); MulAssoc(mx, wj, wi); assert wj * wi == wi * wj; }
      m * prefix * wi + mx * w;
    }
  }

  lemma RowAdvance(s: seq<word>, s': seq<word>, off: nat, len: nat, i: nat, j: nat, m: word, b: seq<word>, start: int,
                   carry: word, more: int, z: int)
    requires off + len <= |s| && j < |b| && i + j < len && more == m * b[j] && z == s[off + i + j] + carry + more
    requires Value(Region(s, off, len)) + carry * Weight(i + j) == start + m * Value(b[..j]) * Weight(i)
    requires s' == s[off + i + j := z % B]
    ensures Value(Region(s', off, len)) + (z / B) * Weight(i + j + 1) == start + m * Value(b[..j + 1]) * Weight(i)
  {
    hide Region, Value, Weight;
    StoreCarry(s, s', off, len, i + j, carry, more, z);
    RowPrefix(m, b, i, j, more);
  }

  lemma RowPrefix(m: word, b: seq<word>, i: nat, j: nat, more: int)
    requires j < |b| && more == m * b[j]
    ensures m * Value(b[..j + 1]) * Weight(i) == m * Value(b[..j]) * Weight(i) + more * Weight(i + j)
  {
    hide Value, Weight;
    ValuePrefix(b, j);
    WeightAdd(i, j);
    RowStep(m, b[j], more, Value(b[..j]), Value(b[..j + 1]), Weight(i), Weight(j), Weight(i + j));
  }

  lemma WeightStep(k: nat)
    ensures Weight(k + 1) == B * Weight(k)
  {
  }

  // The inner loop of the products: adds m * b at limb i of the region and returns the carry out of the row.
  method MulAddRow(mem: array<word>, off: nat, len: nat, i: nat, m: word, b: seq<word>) returns (carry: word)
    requires off + len <= mem.Length && i + |b| <= len
    modifies mem
    ensures Value(Region(mem[..], off, len)) + carry * Weight(i + |b|)
         == Value(Region(old(mem[..]), off, len)) + m * Value(b) * Weight(i)
    ensures SameOutside(old(mem[..]), mem[..], off + i, off + i + |b|)
  {
    hide Region, Value, Weight;
    ghost var start := Value(Region(mem[..], off, len));
    var j := 0;
    carry := 0;
    ValueNothing(b);
    while j < |b|
      invariant 0 <= j <= |b|
      invariant Value(Region(mem[..], off, len)) + carry * Weight(i + j) == start + m * Value(b[..j]) * Weight(i)
      invariant SameOutside(old(mem[..]), mem[..], off + i, off + i + j)
    {
      var z := m * b[j] + mem[off + i + j] + carry;
      DoubleWord(m, b[j], mem[off + i + j], carry);
      DivBound(z, B, 0, B);
      ghost var s := mem[..];
      mem[off + i + j] := z % B;
      RowAdvance(s, mem[..], off, len, i, j, m, b, start, carry, m * b[j], z);
      carry := z / B;
      j := j + 1;
    }
    assert b[..|b|] == b;
  }

  lemma ValueNothing(b: seq<word>)
    ensures Value(b[..0]) == 0
  {
  }

  // memset.
  method Clear(mem: array<word>, off: nat, len: nat)
    requires off + len <= mem.Length
    modifies mem
    ensures SameOutside(old(mem[..]), mem[..], off, off + len)
    ensures forall i | off <= i < off + len :: mem[i] == 0
  {
    for i := off to off + len
      invariant SameOutside(old(mem[..]), mem[..], off, i)
      invariant forall j | off <= j < i :: mem[j] == 0
    {
      mem[i] := 0;
    }
  }
}
