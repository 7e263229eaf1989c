/** The limb kernels of the one-level Karatsuba multiplication, and the multiplication itself. */
module Karatsuba {
  import opened Arith
  import opened Limbs

  lemma RegionIsSlice(s: seq<word>, off: nat, len: nat)
    requires off + len <= |s|
    ensures Region(s, off, len) == s[off..off + len] && (off == 0 ==> s[off..off + len] == s[..len])
  {
  }

  // ---------- operands read past their length ----------

  function Digit(s: seq<word>, i: nat): word {
    if i < |s| then s[i] else 0
  }

  /** The value of the first i limbs of s followed by zeros. */
  function Prefix(s: seq<word>, i: nat): nat {
    Value(if i < |s| then s[..i] else s)
  }

  lemma PrefixStep(s: seq<word>, i: nat)
    ensures Prefix(s, i + 1) == Prefix(s, i) + Digit(s, i) * Weight(i)
  {
    if i < |s| {
      ValuePrefix(s, i);
      assert s[..|s|] == s;
    }
  }

  lemma PrefixAll(s: seq<word>, i: nat)
    requires |s| <= i
    ensures Prefix(s, i) == Value(s) && Prefix(s, 0) == 0
  {
  }

  ghost predicate ZeroFrom(s: seq<word>, off: nat, len: nat, k: nat) {
    off + len <= |s| && forall i | off + k <= i < off + len :: s[i] == 0
  }

  lemma ClearedValue(s: seq<word>, off: nat, len: nat)
    requires ZeroFrom(s, off, len, 0)
    ensures Value(Region(s, off, len)) == 0
  {
    ValueZero(Region(s, off, len));
  }

  // schoolbook_words.
  method SchoolbookWords(mem: array<word>, off: nat, a: seq<word>, b: seq<word>)
    requires off + |a| + |b| <= mem.Length
    modifies mem
    ensures Value(Region(mem[..], off, |a| + |b|)) == Value(a) * Value(b)
    ensures SameOutside(old(mem[..]), mem[..], off, off + |a| + |b|)
  {
    hide Region, Value, Weight;
    ghost var len := |a| + |b|;
    Clear(mem, off, |a| + |b|);
    ClearedValue(mem[..], off, len);
    ValueNothing(a);
    for i := 0 to |a|
      invariant Value(Region(mem[..], off, len)) == Value(a[..i]) * Value(b)
      invariant ZeroFrom(mem[..], off, len, i + |b|)
      invariant SameOutside(old(mem[..]), mem[..], off, off + len)
    {
      ghost var s := mem[..];
      var carry := MulAddRow(mem, off, |a| + |b|, i, a[i], b);
      ghost var s' := mem[..];
      if |b| != 0 {
        mem[off + i + |b|] := carry;
      }
      SchoolbookRow(s, s', mem[..], off, a, b, i, carry);
    }
    assert a[..|a|] == a;
  }

  lemma SchoolbookRow(s: seq<word>, s': seq<word>, s'': seq<word>, off: nat, a: seq<word>, b: seq<word>, i: nat, carry: word)
    requires i < |a| && off + |a| + |b| <= |s| && SameOutside(s, s', off + i, off + i + |b|)
    requires Value(Region(s, off, |a| + |b|)) == Value(a[..i]) * Value(b) && ZeroFrom(s, off, |a| + |b|, i + |b|)
    requires Value(Region(s', off, |a| + |b|)) + carry * Weight(i + |b|)
          == Value(Region(s, off, |a| + |b|)) + a[i] * Value(b) * Weight(i)
    requires s'' == if |b| != 0 then s'[off + i + |b| := carry] else s'
    ensures Value(Region(s'', off, |a| + |b|)) == Value(a[..i + 1]) * Value(b)
    ensures ZeroFrom(s'', off, |a| + |b|, i + 1 + |b|)
  {
    hide Region, Value, Weight;
    if |b| != 0 {
      RegionUpdate(s', off, |a| + |b|, i + |b|, carry);
    } else {
      EmptyRow(s, s', off, |a|, b);
    }
    ValuePrefix(a, i);
    RowProduct(Value(a[..i]), a[i], Weight(i), Value(b));
  }

  lemma EmptyRow(s: seq<word>, s': seq<word>, off: nat, len: nat, b: seq<word>)
    requires off + len <= |s| && |b| == 0 && |s| == |s'| && forall i | 0 <= i < |s| :: s'[i] == s[i]
    ensures Value(b) == 0 && Region(s', off, len) == Region(s, off, len)
  {
  }

  lemma RowProduct(v: int, x: int, w: int, b: int)
    ensures (v + x * w) * b == v * b + x * b * w
  {
    assert (v + x * w) * b == v * b + (x * w) * b;
    MulAssoc(x, w, b);
    MulAssoc(x, b, w);
    assert w * b == b * w;
  }

  function Max(x: nat, y: nat): nat {
    if x > y then x else y
  }

  // add_halves.
  method AddHalves(mem: array<word>, off: nat, outLength: nat, low: seq<word>, high: seq<word>) returns (ok: bool)
    requires off + outLength <= mem.Length
    modifies mem
    ensures ok <==> Max(|low|, |high|) + 1 <= outLength
    ensures ok ==> Value(Region(mem[..], off, outLength)) == Value(low) + Value(high)
    ensures SameOutside(old(mem[..]), mem[..], off, if ok then off + outLength else off)
  {
    hide Region, Value, Weight, Prefix, Digit;
    var length := Max(|low|, |high|);
    if outLength < length + 1 {
      return false;
    }
    var carry := 0;
    Clear(mem, off, outLength);
    ClearedValue(mem[..], off, outLength);
    PrefixAll(low, length);
    PrefixAll(high, length);
    for i := 0 to length
      invariant 0 <= carry <= 1 && ZeroFrom(mem[..], off, outLength, i)
      invariant Value(Region(mem[..], off, outLength)) + carry * Weight(i) == Prefix(low, i) + Prefix(high, i)
      invariant SameOutside(old(mem[..]), mem[..], off, off + outLength)
    {
      var sum := Digit(low, i) + Digit(high, i) + carry;
      ghost var s := mem[..];
      mem[off + i] := sum % B;
      HalvesStep(s, mem[..], off, outLength, low, high, i, carry, sum);
      carry := sum / B;
    }
    ghost var s := mem[..];
    mem[off + length] := carry;
    RegionUpdate(s, off, outLength, length, carry);
    return true;
  }

  lemma HalvesStep(s: seq<word>, s': seq<word>, off: nat, len: nat, low: seq<word>, high: seq<word>, i: nat, carry: int, sum: int)
    requires off + len <= |s| && i < len && s[off + i] == 0 && sum == Digit(low, i) + Digit(high, i) + carry
    requires Value(Region(s, off, len)) + carry * Weight(i) == Prefix(low, i) + Prefix(high, i)
    requires s' == s[off + i := sum % B] && 0 <= carry <= 1
    ensures 0 <= sum / B <= 1
    ensures Value(Region(s', off, len)) + (sum / B) * Weight(i + 1) == Prefix(low, i + 1) + Prefix(high, i + 1)
  {
    hide Region, Value, Weight, Prefix, Digit;
    var x: int, y: int, w := Digit(low, i), Digit(high, i), Weight(i);
    StoreCarry(s, s', off, len, i, carry, x + y, sum);
    PrefixStep(low, i);
    PrefixStep(high, i);
    assert (x + y) * w == x * w + y * w;
    assert sum - 0 - carry == x + y;
  }

  // subtract_words: in place, with the borrow out as the result.
  method SubtractWords(mem: array<word>, off: nat, length: nat, subtrahend: seq<word>) returns (ok: bool)
    requires off + length <= mem.Length
    modifies mem
    ensures ok <==> |subtrahend| <= length && Value(subtrahend) <= Value(Region(old(mem[..]), off, length))
    ensures |subtrahend| > length ==> mem[..] == old(mem[..])
    ensures |subtrahend| <= length ==>
      Value(Region(mem[..], off, length))
        == Value(Region(old(mem[..]), off, length)) - Value(subtrahend) + (if ok then 0 else Weight(length))
    ensures SameOutside(old(mem[..]), mem[..], off, off + length)
  {
    hide Region, Value, Weight, Prefix, Digit;
    if |subtrahend| > length {
      return false;
    }
    ghost var start := Value(Region(mem[..], off, length));
    var borrow := 0;
    PrefixAll(subtrahend, length);
    for i := 0 to length
      invariant 0 <= borrow <= 1
      invariant Value(Region(mem[..], off, length)) == start - Prefix(subtrahend, i) + borrow * Weight(i)
      invariant SameOutside(old(mem[..]), mem[..], off, off + length)
    {
      var right := Digit(subtrahend, i) + borrow;
      var left := mem[off + i];
      ghost var s := mem[..];
      mem[off + i] := (left - right) % B;
      BorrowStep(s, mem[..], off, length, subtrahend, i, borrow, start);
      borrow := if left < right then 1 else 0;
    }
    BorrowOut(Region(mem[..], off, length), borrow, start - Value(subtrahend));
    return borrow == 0;
  }

  lemma BorrowStep(s: seq<word>, s': seq<word>, off: nat, len: nat, sub: seq<word>, i: nat, borrow: int, start: int)
    requires off + len <= |s| && i < len && 0 <= borrow <= 1
    requires Value(Region(s, off, len)) == start - Prefix(sub, i) + borrow * Weight(i)
    requires s' == s[off + i := (s[off + i] - (Digit(sub, i) + borrow)) % B]
    ensures Value(Region(s', off, len))
         == start - Prefix(sub, i + 1) + (if s[off + i] < Digit(sub, i) + borrow then 1 else 0) * Weight(i + 1)
  {
    hide Region, Value, Weight, Prefix, Digit;
    var left, right := s[off + i], Digit(sub, i) + borrow;
    var out := if left < right then 1 else 0;
    assert (left - right) % B == left - right + out * B;
    RegionUpdate(s, off, len, i, (left - right) % B);
    PrefixStep(sub, i);
    WeightStep(i);
    BorrowArithmetic(Digit(sub, i), borrow, out, Weight(i));
  }

  lemma BorrowArithmetic(d: int, borrow: int, out: int, w: int)
    ensures borrow * w + (-(d + borrow) + out * B) * w == -(d * w) + out * (B * w)
  {
    assert (-(d + borrow) + out * B) * w == -(d * w) - borrow * w + (out * B) * w;
    MulAssoc(out, B, w);
  }

  lemma BorrowOut(s: seq<word>, borrow: int, difference: int)
    requires 0 <= borrow <= 1 && Value(s) == difference + borrow * Weight(|s|)
    ensures borrow == 0 <==> 0 <= difference
  {
    ValueBound(s);
  }

  // add_shifted: adds a value at a limb offset, then propagates the carry.
  method AddShifted(mem: array<word>, off: nat, outLength: nat, value: seq<word>, offset: nat) returns (ok: bool)
    requires off + outLength <= mem.Length
    modifies mem
    ensures ok <==> offset + |value| <= outLength
                    && Value(Region(old(mem[..]), off, outLength)) + Value(value) * Weight(offset) < Weight(outLength)
    ensures offset + |value| > outLength ==> mem[..] == old(mem[..])
    ensures ok ==>
      Value(Region(mem[..], off, outLength)) == Value(Region(old(mem[..]), off, outLength)) + Value(value) * Weight(offset)
    ensures SameOutside(old(mem[..]), mem[..], off, off + outLength)
  {
    hide Region, Value, Weight;
    if offset > outLength || |value| > outLength - offset {
      return false;
    }
    ghost var start := Value(Region(mem[..], off, outLength));
    var carry := 0;
    ValueNothing(value);
    for i := 0 to |value|
      invariant 0 <= carry <= 1
      invariant Value(Region(mem[..], off, outLength)) + carry * Weight(offset + i) == start + Value(value[..i]) * Weight(offset)
      invariant SameOutside(old(mem[..]), mem[..], off, off + outLength)
    {
      var sum := mem[off + (offset + i)] + value[i] + carry;
      ghost var s := mem[..];
      mem[off + (offset + i)] := sum % B;
      ShiftedStep(s, mem[..], off, outLength, value, offset, i, carry, sum, start);
      carry := sum / B;
    }
    assert value[..|value|] == value;
    var i: nat := offset + |value|;
    while carry != 0 && i < outLength
      invariant 0 <= carry <= 1 && i <= outLength
      invariant Value(Region(mem[..], off, outLength)) + carry * Weight(i) == start + Value(value) * Weight(offset)
      invariant SameOutside(old(mem[..]), mem[..], off, off + outLength)
    {
      var sum := mem[off + i] + carry;
      ghost var s := mem[..];
      mem[off + i] := sum % B;
      PropagateStep(s, mem[..], off, outLength, i, carry, sum);
      carry := sum / B;
      i := i + 1;
    }
    CarryOut(Region(mem[..], off, outLength), carry, i, start + Value(value) * Weight(offset));
    return carry == 0;
  }

  lemma ShiftedStep(s: seq<word>, s': seq<word>, off: nat, len: nat, value: seq<word>, offset: nat, i: nat, carry: int, sum: int,
                    start: int)
    requires off + len <= |s| && i < |value| && offset + i < len && 0 <= carry <= 1
    requires Value(Region(s, off, len)) + carry * Weight(offset + i) == start + Value(value[..i]) * Weight(offset)
    requires sum == s[off + (offset + i)] + value[i] + carry && s' == s[off + (offset + i) := sum % B]
    ensures 0 <= sum / B <= 1
    ensures Value(Region(s', off, len)) + (sum / B) * Weight(offset + i + 1) == start + Value(value[..i + 1]) * Weight(offset)
  {
    hide Region, Value, Weight;
    StoreCarry(s, s', off, len, offset + i, carry, value[i], sum);
    ValuePrefix(value, i);
    WeightAdd(offset, i);
    SplitTerm(Value(value[..i]), value[i], Weight(i), Weight(offset));
  }

  lemma PropagateStep(s: seq<word>, s': seq<word>, off: nat, len: nat, i: nat, carry: int, sum: int)
    requires off + len <= |s| && i < len && 0 <= carry <= 1 && sum == s[off + i] + carry && s' == s[off + i := sum % B]
    ensures 0 <= sum / B <= 1
    ensures Value(Region(s', off, len)) + (sum / B) * Weight(i + 1) == Value(Region(s, off, len)) + carry * Weight(i)
  {
    hide Region, Value, Weight;
    StoreCarry(s, s', off, len, i, carry, 0, sum);
  }

  lemma CarryOut(s: seq<word>, carry: int, i: nat, sum: int)
    requires 0 <= carry <= 1 && Value(s) + carry * Weight(i) == sum && (carry != 0 ==> i == |s|)
    ensures carry == 0 <==> sum < Weight(|s|)
  {
    ValueBound(s);
  }

  // words_length.
  method WordsLength(s: seq<word>) returns (length: nat)
    ensures length <= |s| && Value(s[..length]) == Value(s)
    ensures length > 0 ==> Weight(length - 1) <= Value(s)
  {
    hide Value, Weight;
    length := |s|;
    assert s[..|s|] == s;
    while length != 0 && s[length - 1] == 0
      invariant length <= |s| && Value(s[..length]) == Value(s)
    {
      ValuePrefix(s, length - 1);
      length := length - 1;
    }
    if length > 0 {
      ValuePrefix(s, length - 1);
      MulMono(1, s[length - 1], Weight(length - 1));
    }
  }

  // ---------- one Karatsuba split ----------

  /** Workspace limbs for operands of n limbs. */
  function Required(n: nat): nat {
    var high := n - n / 2;
    2 * (n / 2) + 2 * high + 2 * (high + 1) + 2 * (high + 1)
  }

  lemma RequiredBound(n: nat)
    ensures Required(n) == 4 * n + 4 + 2 * (n % 2) && Required(n) <= 4 * n + 8
  {
  }

  /** A product of two n-limb numbers split at limb l. */
  lemma SplitProduct(al: int, ah: int, bl: int, bh: int, w: int)
    ensures (al + ah * w) * (bl + bh * w) == al * bl + ((al + ah) * (bl + bh) - al * bl - ah * bh) * w + ah * bh * (w * w)
  {
    assert (al + ah) * (bl + bh) - al * bl - ah * bh == al * bh + ah * bl;
    calc {
      (al + ah * w) * (bl + bh * w);
      al * (bl + bh * w) + (ah * w) * (bl + bh * w);
      al * bl + al * (bh * w) + (ah * w) * bl + (ah * w) * (bh * w);
      { assert al * (bh * w) == (al * bh) * w; assert (ah * w) * bl == (ah * bl) * w; }
      al * bl + (al * bh) * w + (ah * bl) * w + (ah * w) * (bh * w);
      { SquareTerm(ah, bh, w); }
      al * bl + (al * bh) * w + (ah * bl) * w + ah * bh * (w * w);
      al * bl + (al * bh + ah * bl) * w + ah * bh * (w * w);
    }
  }

  lemma SquareTerm(x: int, y: int, w: int)
    ensures (x * w) * (y * w) == x * y * (w * w)
  {
    MulAssoc(x * w, y, w);
    assert (x * w) * y == (x * y) * w;
    MulAssoc(x * y, w, w);
  }

  /** The middle coefficient: nonnegative after both subtractions, and small. */
  lemma CrossTerm(al: int, ah: int, bl: int, bh: int, l: nat, h: nat)
    requires 0 <= al < Weight(l) && 0 <= bl < Weight(l) && 0 <= ah < Weight(h) && 0 <= bh < Weight(h)
    ensures 0 <= (al + ah) * (bl + bh) - al * bl - ah * bh < Weight(l + h + 1)
    ensures ah * bh <= (al + ah) * (bl + bh) - al * bl
    ensures al * bl >= 0 && ah * bh >= 0
  {
    hide Weight;
    assert (al + ah) * (bl + bh) == al * bl + al * bh + ah * bl + ah * bh;
    MulBound(al, Weight(l), bh, Weight(h));
    MulBound(ah, Weight(h), bl, Weight(l));
    MulBound(al, Weight(l), bl, Weight(l));
    MulBound(ah, Weight(h), bh, Weight(h));
    assert Weight(h) * Weight(l) == Weight(l) * Weight(h);
    WeightAdd(l, h);
    WeightStep(l + h);
  }

  lemma HalvesBound(s: seq<word>, l: nat)
    requires l <= |s|
    ensures Value(s) == Value(s[..l]) + Value(s[l..]) * Weight(l)
    ensures Value(s[..l]) < Weight(l) && Value(s[l..]) < Weight(|s| - l)
  {
    ValueSplit(s, l);
    ValueBound(s[..l]);
    ValueBound(s[l..]);
  }

  /** What the workspace holds when the three coefficients are in place. */
  ghost predicate Coefficients(s: seq<word>, x: seq<word>, y: seq<word>) {
    var n := |x|;
    var l, h := n / 2, n - n / 2;
    && |y| == n && Required(n) <= |s|
    && Value(Region(s, 0, 2 * l)) == Value(x[..l]) * Value(y[..l])
    && Value(Region(s, 2 * l, 2 * h)) == Value(x[l..]) * Value(y[l..])
    && Value(Region(s, 2 * n + 2 * (h + 1), 2 * (h + 1)))
       == (Value(x[..l]) + Value(x[l..])) * (Value(y[..l]) + Value(y[l..]))
  }

  // The first five calls of karatsuba_one_level.
  method EvaluateParts(mem: array<word>, x: seq<word>, y: seq<word>) returns (ok: bool)
    requires |x| == |y| && Required(|x|) <= mem.Length
    modifies mem
    ensures ok && Coefficients(mem[..], x, y)
  {
    hide Region, Value;
    var n := |x|;
    var l, h := n / 2, n - n / 2;
    var sumA, sumB, z1 := 2 * n, 2 * n + (h + 1), 2 * n + 2 * (h + 1);
    SchoolbookWords(mem, 0, x[..l], y[..l]);
    ghost var s0 := mem[..];
    SchoolbookWords(mem, 2 * l, x[l..], y[l..]);
    ghost var s1 := mem[..];
    var okA := AddHalves(mem, sumA, h + 1, x[..l], x[l..]);
    if !okA {
      return false;
    }
    ghost var s2 := mem[..];
    var okB := AddHalves(mem, sumB, h + 1, y[..l], y[l..]);
    if !okB {
      return false;
    }
    ghost var s3 := mem[..];
    SchoolbookWords(mem, z1, mem[sumA..sumA + (h + 1)], mem[sumB..sumB + (h + 1)]);
    PartsFrame(s0, s1, s2, s3, mem[..], l, h);
    return true;
  }

  /** Each call leaves the regions of the earlier ones alone. */
  lemma PartsFrame(s0: seq<word>, s1: seq<word>, s2: seq<word>, s3: seq<word>, s4: seq<word>, l: nat, h: nat)
    requires 2 * l + 2 * h + 4 * (h + 1) <= |s0|
    requires SameOutside(s0, s1, 2 * l, 2 * l + 2 * h)
    requires SameOutside(s1, s2, 2 * (l + h), 2 * (l + h) + (h + 1))
    requires SameOutside(s2, s3, 2 * (l + h) + (h + 1), 2 * (l + h) + 2 * (h + 1))
    requires SameOutside(s3, s4, 2 * (l + h) + 2 * (h + 1), 2 * (l + h) + 4 * (h + 1))
    ensures Region(s4, 0, 2 * l) == Region(s0, 0, 2 * l)
    ensures Region(s4, 2 * l, 2 * h) == Region(s1, 2 * l, 2 * h)
    ensures Region(s3, 2 * (l + h), h + 1) == Region(s2, 2 * (l + h), h + 1)
    ensures s3[2 * (l + h)..2 * (l + h) + (h + 1)] == Region(s3, 2 * (l + h), h + 1)
    ensures s3[2 * (l + h) + (h + 1)..2 * (l + h) + 2 * (h + 1)] == Region(s3, 2 * (l + h) + (h + 1), h + 1)
  {
  }

  ghost function Low(x: seq<word>): nat {
    Value(x[..|x| / 2])
  }

  ghost function High(x: seq<word>): nat {
    Value(x[|x| / 2..])
  }

  ghost function Cross(x: seq<word>, y: seq<word>): int {
    (Low(x) + High(x)) * (Low(y) + High(y)) - Low(x) * Low(y) - High(x) * High(y)
  }

  /** The outer coefficients, and the middle one after both subtractions. */
  ghost predicate Ready(s: seq<word>, x: seq<word>, y: seq<word>) {
    var n := |x|;
    var l, h := n / 2, n - n / 2;
    && |y| == n && Required(n) <= |s|
    && Value(Region(s, 0, 2 * l)) == Low(x) * Low(y)
    && Value(Region(s, 2 * l, 2 * h)) == High(x) * High(y)
    && Value(Region(s, 2 * n + 2 * (h + 1), 2 * (h + 1))) == Cross(x, y)
  }

  lemma HalvesOf(x: seq<word>)
    ensures Value(x) == Low(x) + High(x) * Weight(|x| / 2)
    ensures Low(x) < Weight(|x| / 2) && High(x) < Weight(|x| - |x| / 2)
  {
    HalvesBound(x, |x| / 2);
  }

  lemma CrossBounds(x: seq<word>, y: seq<word>)
    requires |x| == |y|
    ensures 0 <= Low(x) * Low(y) && 0 <= High(x) * High(y)
    ensures 0 <= Cross(x, y) < Weight(|x| + 1)
    ensures High(x) * High(y) <= (Low(x) + High(x)) * (Low(y) + High(y)) - Low(x) * Low(y)
    ensures Cross(x, y) == (Low(x) + High(x)) * (Low(y) + High(y)) - Low(x) * Low(y) - High(x) * High(y)
  {
    hide Value, Weight, Low, High;
    HalvesOf(x);
    HalvesOf(y);
    CrossTerm(Low(x), High(x), Low(y), High(y), |x| / 2, |x| - |x| / 2);
  }

  lemma WholeProduct(x: seq<word>, y: seq<word>)
    requires |x| == |y|
    ensures var l := |x| / 2;
      Value(x) * Value(y) == Low(x) * Low(y) + Cross(x, y) * Weight(l) + High(x) * High(y) * Weight(2 * l)
    ensures 0 <= Cross(x, y) * Weight(|x| / 2) && 0 <= High(x) * High(y) * Weight(2 * (|x| / 2))
    ensures Value(x) * Value(y) < Weight(2 * |x|)
  {
    hide *;
    var l := |x| / 2;
    HalvesOf(x);
    HalvesOf(y);
    CrossBounds(x, y);
    WeightAdd(l, l);
    SplitProduct(Low(x), High(x), Low(y), High(y), Weight(l));
    MulMono(0, Cross(x, y), Weight(l));
    MulMono(0, High(x) * High(y), Weight(2 * l));
    ProductBound(x, y);
  }

  lemma ProductBound(x: seq<word>, y: seq<word>)
    ensures Value(x) * Value(y) < Weight(|x| + |y|)
  {
    hide Value, Weight;
    ValueBound(x);
    ValueBound(y);
    WeightAdd(|x|, |y|);
    MulBound(Value(x), Weight(|x|) - 1, Value(y), Weight(|y|) - 1);
    assert (Weight(|x|) - 1) * (Weight(|y|) - 1) < Weight(|x|) * Weight(|y|);
  }

  lemma LengthBound(length: nat, v: int, k: nat)
    requires length > 0 ==> Weight(length - 1) <= v
    requires v < Weight(k)
    ensures length <= k
  {
    if length > k {
      WeightMono(k, length - 1);
    }
  }

  lemma CoefficientsAre(s: seq<word>, x: seq<word>, y: seq<word>)
    requires Coefficients(s, x, y)
    ensures var n := |x|; var l, h := n / 2, n - n / 2; var z1 := 2 * n + 2 * (h + 1);
      && |y| == n && z1 + 2 * (h + 1) == Required(n) <= |s|
      && Value(s[..2 * l]) == Low(x) * Low(y) && Value(s[2 * l..2 * l + 2 * h]) == High(x) * High(y)
      && Value(Region(s, z1, 2 * (h + 1))) == (Low(x) + High(x)) * (Low(y) + High(y))
  {
  }

  lemma ReadyIs(s: seq<word>, x: seq<word>, y: seq<word>)
    requires Ready(s, x, y)
    ensures var n := |x|; var l, h := n / 2, n - n / 2; var z1 := 2 * n + 2 * (h + 1);
      && |y| == n && z1 + 2 * (h + 1) == Required(n) <= |s|
      && Value(s[..2 * l]) == Low(x) * Low(y) && Value(s[2 * l..2 * l + 2 * h]) == High(x) * High(y)
      && Value(s[z1..z1 + 2 * (h + 1)]) == Cross(x, y)
  {
  }

  lemma BecomesReady(s: seq<word>, s': seq<word>, x: seq<word>, y: seq<word>)
    requires Coefficients(s, x, y)
    requires var n := |x|; var h := n - n / 2; var z1 := 2 * n + 2 * (h + 1);
      SameOutside(s, s', z1, z1 + 2 * (h + 1)) && Value(Region(s', z1, 2 * (h + 1))) == Cross(x, y)
    ensures Ready(s', x, y)
  {
    var l, h := |x| / 2, |x| - |x| / 2;
    assert Region(s', 0, 2 * l) == Region(s, 0, 2 * l) && Region(s', 2 * l, 2 * h) == Region(s, 2 * l, 2 * h);
  }

  // The two subtractions of karatsuba_one_level.
  method SubtractOuter(mem: array<word>, x: seq<word>, y: seq<word>) returns (ok: bool)
    requires Coefficients(mem[..], x, y)
    modifies mem
    ensures ok && Ready(mem[..], x, y)
  {
    hide Region, Value, Weight, Coefficients, Ready, Cross, Low, High, Required;
    var n := |x|;
    var l, h := n / 2, n - n / 2;
    var z1, z1Capacity := 2 * n + 2 * (h + 1), 2 * (h + 1);
    ghost var s := mem[..];
    CoefficientsAre(s, x, y);
    CrossBounds(x, y);
    var z0, z2 := mem[..2 * l], mem[2 * l..2 * l + 2 * h];
    var z0Length := WordsLength(z0);
    var z2Length := WordsLength(z2);
    ok := SubtractWords(mem, z1, z1Capacity, z0[..z0Length]);
    if !ok {
      return;
    }
    ok := SubtractWords(mem, z1, z1Capacity, z2[..z2Length]);
    if !ok {
      return;
    }
    BecomesReady(s, mem[..], x, y);
  }

  // The assembly of karatsuba_one_level, after memset.
  method Assemble(out: array<word>, mem: array<word>, x: seq<word>, y: seq<word>) returns (ok: bool)
    requires out != mem && 2 * |x| <= out.Length && Ready(mem[..], x, y) && ZeroFrom(out[..], 0, 2 * |x|, 0)
    modifies out
    ensures ok && Value(Region(out[..], 0, 2 * |x|)) == Value(x) * Value(y)
    ensures SameOutside(old(out[..]), out[..], 0, 2 * |x|)
  {
    hide Region, Value, Weight, Cross, Low, High, Ready, Required, ZeroFrom;
    var n := |x|;
    var l, h := n / 2, n - n / 2;
    var z1, z1Capacity := 2 * n + 2 * (h + 1), 2 * (h + 1);
    ReadyIs(mem[..], x, y);
    CrossBounds(x, y);
    WholeProduct(x, y);
    ClearedValue(out[..], 0, 2 * n);
    var w0, w1, w2 := mem[..2 * l], mem[z1..z1 + z1Capacity], mem[2 * l..2 * l + 2 * h];
    var z0Length := WordsLength(w0);
    var z1Length := WordsLength(w1);
    var z2Length := WordsLength(w2);
    LengthBound(z1Length, Cross(x, y), n + 1);
    TimesFirstWeight(Value(w0));
    ok := AddShifted(out, 0, 2 * n, w0[..z0Length], 0);
    if !ok {
      return;
    }
    ok := AddShifted(out, 0, 2 * n, w1[..z1Length], l);
    if !ok {
      return;
    }
    ok := AddShifted(out, 0, 2 * n, w2[..z2Length], 2 * l);
  }

  lemma TimesFirstWeight(v: int)
    ensures v * Weight(0) == v
  {
  }
}
