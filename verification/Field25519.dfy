/** Arithmetic modulo p = 2^255 - 19 on sixteen limbs of radix 2^16. */
module Field25519 {
  import opened Arith
  import opened Bits

  const R := 0x1_0000
  const TOP := 0x8000
  const TWO_255 := 0x8000_0000_0000_0000_0000_0000_0000_0000_0000_0000_0000_0000_0000_0000_0000_0000
  const P := TWO_255 - 19
  const LIMIT := 0x8000_0000_0000_0000 // 2^63

  // ---------- numbers as limbs of any size ----------

  function RPow(k: nat): (w: nat)
    ensures 0 < w
  {
    if k == 0 then 1 else R * RPow(k - 1)
  }

  function Val(s: seq<int>): int {
    if s == [] then 0 else Val(s[..|s| - 1]) + s[|s| - 1] * RPow(|s| - 1)
  }

  lemma RPowValues()
    ensures RPow(15) * TOP == TWO_255 && RPow(16) == 2 * TWO_255 && RPow(16) == R * RPow(15)
  {
    FifthPower();
    RPowAdd(5, 5);
    RPowAdd(10, 5);
    RPowStep(15);
  }

  lemma FifthPower()
    ensures RPow(5) == 0x1_0000_0000_0000_0000_0000
  {
  }

  lemma {:induction false} RPowAdd(j: nat, k: nat)
    ensures RPow(j + k) == RPow(j) * RPow(k)
  {
    if j > 0 {
      RPowAdd(j - 1, k);
      MulAssoc(R, RPow(j - 1), RPow(k));
    }
  }

  lemma ValAppend(s: seq<int>, x: int)
    ensures Val(s + [x]) == Val(s) + x * RPow(|s|)
  {
    assert (s + [x])[..|s|] == s;
  }

  lemma ValPrefix(s: seq<int>, j: nat)
    requires j < |s|
    ensures Val(s[..j + 1]) == Val(s[..j]) + s[j] * RPow(j)
  {
    assert s[..j + 1] == s[..j] + [s[j]];
    ValAppend(s[..j], s[j]);
  }

  lemma {:induction false} ValUpdate(s: seq<int>, i: nat, x: int)
    requires i < |s|
    ensures Val(s[i := x]) == Val(s) + (x - s[i]) * RPow(i)
  {
    var k := |s| - 1;
    if i == k {
      assert s[i := x][..k] == s[..k];
      assert (x - s[i]) * RPow(i) == x * RPow(i) - s[i] * RPow(i);
    } else {
      ValUpdate(s[..k], i, x);
      assert s[i := x][..k] == s[..k][i := x];
    }
  }

  lemma {:induction false} ValConcat(a: seq<int>, b: seq<int>)
    ensures Val(a + b) == Val(a) + Val(b) * RPow(|a|)
  {
    if b == [] {
      assert a + b == a;
    } else {
      var x, b' := b[|b| - 1], b[..|b| - 1];
      assert a + b == (a + b') + [x];
      ValConcat(a, b');
      ValAppend(a + b', x);
      RPowAdd(|a|, |b'|);
      calc {
        (Val(b') + x * RPow(|b'|)) * RPow(|a|);
        Val(b') * RPow(|a|) + (x * RPow(|b'|)) * RPow(|a|);
        { MulAssoc(x, RPow(|b'|), RPow(|a|)); assert RPow(|b'|) * RPow(|a|) == RPow(|a|) * RPow(|b'|); }
        Val(b') * RPow(|a|) + x * (RPow(|a|) * RPow(|b'|));
      }
    }
  }

  lemma {:induction false} ValZero(s: seq<int>)
    requires forall i | 0 <= i < |s| :: s[i] == 0
    ensures Val(s) == 0
  {
    if s != [] {
      ValZero(s[..|s| - 1]);
    }
  }

  /** Limbs below the radix make a value below its power. */
  lemma {:induction false} ValBound(s: seq<int>)
    requires forall i | 0 <= i < |s| :: 0 <= s[i] < R
    ensures 0 <= Val(s) < RPow(|s|)
  {
    if s != [] {
      var k := |s| - 1;
      ValBound(s[..k]);
      MulMono(s[k] + 1, R, RPow(k));
      MulMono(0, s[k], RPow(k));
      assert (s[k] + 1) * RPow(k) == s[k] * RPow(k) + RPow(k);
    }
  }

  /** Limbs below a bound make a value below twice the bound at the top limb's weight. */
  lemma {:induction false} ValLoose(s: seq<int>, bound: int)
    requires s != [] && 0 <= bound && forall i | 0 <= i < |s| :: 0 <= s[i] <= bound
    ensures 0 <= Val(s) <= 2 * (bound * RPow(|s| - 1))
  {
    var k := |s| - 1;
    MulMono(s[k], bound, RPow(k));
    MulMono(0, s[k], RPow(k));
    if k == 0 {
      assert Val(s[..0]) == 0;
    } else {
      ValLoose(s[..k], bound);
      assert bound * RPow(k) == R * (bound * RPow(k - 1));
      MulMono(0, bound, RPow(k - 1));
    }
  }

  /** A limb sequence in which every limb is below the radix and the top one below 2^15. */
  predicate Reduced(s: seq<int>) {
    |s| == 16 && (forall i | 0 <= i < 16 :: 0 <= s[i] < R) && s[15] < TOP
  }

  /** The canonical representation of a field element. */
  ghost predicate Canonical(s: seq<int>) {
    Reduced(s) && Val(s) < P
  }

  lemma ReducedBound(s: seq<int>)
    requires Reduced(s)
    ensures 0 <= Val(s) < TWO_255
  {
    hide Val, RPow;
    assert s[..16] == s;
    ValPrefix(s, 15);
    ValBound(s[..15]);
    RPowValues();
    MulMono(s[15] + 1, TOP, RPow(15));
    MulMono(0, s[15], RPow(15));
    assert (s[15] + 1) * RPow(15) == s[15] * RPow(15) + RPow(15);
  }

  // ---------- carry passes ----------

  /** What one pass does to the value: 2^255 is 19 modulo p. */
  function Fold(v: int): int {
    v % TWO_255 + 19 * (v / TWO_255)
  }

  lemma FoldCongruent(v: int)
    ensures Cong(Fold(v), v, P)
  {
    DivMod(v, TWO_255);
    CongIntro(Fold(v), v, P, -(v / TWO_255));
  }

  /** Two passes bring any value of sixteen 63-bit limbs below 2^255. */
  lemma TwoFolds(v: int)
    requires 0 <= v <= 2 * (LIMIT * RPow(15))
    ensures 0 <= v / TWO_255 <= 0x2_0000_0000_0000 && 0 <= Fold(v) < TWO_255 + 19 * 0x2_0000_0000_0000
    ensures 0 <= Fold(Fold(v)) < TWO_255
  {
    RPowValues();
    DivBound(v, TWO_255, 0, 0x2_0000_0000_0001);
    DivMod(v, TWO_255);
    DivMod(Fold(v), TWO_255);
    DivBound(Fold(v), TWO_255, 0, 2);
  }

  lemma FoldSmall(v: int)
    requires 0 <= v < TWO_255
    ensures v / TWO_255 == 0 && Fold(v) == v
  {
  }

  /** Moving the high part of limb i to limb i + 1 keeps the value. */
  lemma MoveCarry(s: seq<int>, s': seq<int>, i: nat, quo: int, rem: int)
    requires i + 1 < |s| && s[i] == quo * R + rem && s' == s[i := rem][i + 1 := s[i + 1] + quo]
    ensures Val(s') == Val(s)
  {
    hide Val, RPow;
    ValUpdate(s, i, rem);
    ValUpdate(s[i := rem], i + 1, s[i + 1] + quo);
    RPowStep(i);
    CarryArithmetic(s[i], quo, rem, RPow(i));
  }

  lemma RPowStep(k: nat)
    ensures RPow(k + 1) == R * RPow(k)
  {
  }

  lemma CarryArithmetic(x: int, quo: int, rem: int, w: int)
    requires x == quo * R + rem
    ensures (rem - x) * w + quo * (R * w) == 0
  {
    assert quo * (R * w) == (quo * R) * w;
    assert (rem - x) * w == -(quo * R) * w;
  }

  /** Folding the top: with the lower limbs in range, the carry out is the quotient by 2^255. */
  lemma FoldTop(s: seq<int>, s': seq<int>, c: int, rem: int)
    requires |s| == 16 && forall i | 0 <= i < 15 :: 0 <= s[i] < R
    requires s[15] == c * TOP + rem && 0 <= rem < TOP && s' == s[15 := rem][0 := s[0] + c * 19]
    ensures c == Val(s) / TWO_255 && Val(s') == Fold(Val(s))
  {
    hide Val, RPow;
    assert s[..16] == s;
    ValPrefix(s, 15);
    ValBound(s[..15]);
    RPowValues();
    TopArithmetic(Val(s[..15]), s[15], c, rem, RPow(15));
    TopUpdates(s, s', rem, c * 19);
  }

  lemma TopUpdates(s: seq<int>, s': seq<int>, rem: int, more: int)
    requires |s| == 16 && s' == s[15 := rem][0 := s[0] + more]
    ensures Val(s') == Val(s) + (rem - s[15]) * RPow(15) + more
  {
    hide *;
    var s1 := s[15 := rem];
    ValUpdate(s, 15, rem);
    assert s1[0] == s[0];
    var first := s[0] + more;
    FirstUpdate(s1, first);
    assert s' == s1[0 := first];
  }

  lemma FirstUpdate(s: seq<int>, x: int)
    requires s != []
    ensures Val(s[0 := x]) == Val(s) + x - s[0]
  {
    hide Val, RPow;
    ValUpdate(s, 0, x);
    FirstPower();
  }

  lemma FirstPower()
    ensures RPow(0) == 1
  {
  }

  lemma TopArithmetic(low: int, top: int, c: int, rem: int, w: int)
    requires w * TOP == TWO_255 && 0 <= low < w && top == c * TOP + rem && 0 <= rem < TOP
    ensures (low + top * w) / TWO_255 == c
    ensures low + top * w + (rem - top) * w + c * 19 == Fold(low + top * w)
  {
    assert top * w == (c * TOP) * w + rem * w;
    assert (c * TOP) * w == c * TWO_255 by {
      MulAssoc(c, TOP, w);
    }
    MulMono(rem + 1, TOP, w);
    assert (rem + 1) * w == rem * w + w;
    MulMono(0, rem, w);
    DivModUnique(low + top * w, TWO_255, c, low + rem * w);
    assert (rem - top) * w == rem * w - top * w;
  }

  // One round of ed25519_reduce_16 and of x25519_reduce_16. The bound makes every 64-bit sum exact.
  method CarryPass(value: array<int>)
    requires value.Length == 16 && forall i | 0 <= i < 16 :: 0 <= value[i] <= LIMIT
    modifies value
    ensures Val(value[..]) == Fold(old(Val(value[..])))
    ensures (forall i | 1 <= i < 16 :: 0 <= value[i] < R) && value[15] < TOP
    ensures 0 <= value[0] < R + 19 * (old(Val(value[..])) / TWO_255) && value[0] <= LIMIT
  {
    hide Val, RPow, Fold;
    for i := 0 to 15
      invariant forall k | 0 <= k < i :: 0 <= value[k] < R
      invariant 0 <= value[i] <= LIMIT + 2 * (LIMIT / R)
      invariant forall k | i < k < 16 :: 0 <= value[k] <= LIMIT
      invariant Val(value[..]) == old(Val(value[..]))
    {
      ghost var s := value[..];
      var carry := value[i] / R;
      value[i] := value[i] % R;
      value[i + 1] := value[i + 1] + carry;
      DivMod(s[i], R);
      MoveCarry(s, value[..], i, carry, value[i]);
    }
    ghost var s := value[..];
    var carry := value[15] / TOP;
    value[15] := value[15] % TOP;
    value[0] := value[0] + carry * 19;
    DivMod(s[15], TOP);
    FoldTop(s, value[..], carry, value[15]);
  }

  /** p in radix 2^16. */
  function PLimb(i: nat): int {
    if i == 0 then 0xffed else if i == 15 then 0x7fff else 0xffff
  }

  function PLimbs(): (s: seq<int>)
    ensures |s| == 16
  {
    seq(16, i requires 0 <= i < 16 => PLimb(i))
  }

  lemma PLimbsValue()
    ensures Val(PLimbs()) == P
  {
    hide Val, RPow;
    var s := PLimbs();
    var all := seq(16, i requires 0 <= i < 16 => 0xffff);
    assert s == all[0 := 0xffed][15 := 0x7fff];
    ValUpdate(all, 0, 0xffed);
    ValUpdate(all[0 := 0xffed], 15, 0x7fff);
    AllOnes(all);
    RPowValues();
    FirstPower();
  }

  lemma {:induction false} AllOnes(s: seq<int>)
    requires forall i | 0 <= i < |s| :: s[i] == 0xffff
    ensures Val(s) == RPow(|s|) - 1
  {
    if s != [] {
      AllOnes(s[..|s| - 1]);
    }
  }

  // ---------- subtraction with borrow ----------

  ghost predicate Limbs16(s: seq<int>) {
    |s| == 16 && forall i | 0 <= i < 16 :: 0 <= s[i] < R
  }

  lemma BorrowStep(done: seq<int>, a: seq<int>, b: seq<int>, i: nat, borrow: int, d: int, limb: int, out: int)
    requires i < |a| == |b| && |done| == i && d == a[i] - b[i] - borrow && limb == d + out * R
    requires Val(done) == Val(a[..i]) - Val(b[..i]) + borrow * RPow(i)
    ensures Val(done + [limb]) == Val(a[..i + 1]) - Val(b[..i + 1]) + out * RPow(i + 1)
  {
    hide Val, RPow;
    ValAppend(done, limb);
    ValPrefix(a, i);
    ValPrefix(b, i);
    RPowStep(i);
    BorrowArithmetic(a[i], b[i], borrow, d, out, RPow(i));
  }

  lemma BorrowArithmetic(x: int, y: int, borrow: int, d: int, out: int, w: int)
    requires d == x - y - borrow
    ensures borrow * w + (d + out * R) * w == x * w - y * w + out * (R * w)
  {
    assert (d + out * R) * w == d * w + (out * R) * w;
    assert d * w == x * w - y * w - borrow * w;
    MulAssoc(out, R, w);
  }

  // The borrow loop of the conditional subtraction and of the field subtraction.
  method SubtractLimbs(a: seq<int>, b: seq<int>) returns (difference: array<int>, borrow: int)
    requires Limbs16(a) && Limbs16(b)
    ensures fresh(difference) && Limbs16(difference[..])
    ensures 0 <= borrow <= 1 && Val(difference[..]) == Val(a) - Val(b) + borrow * RPow(16)
    ensures borrow == 1 <==> Val(a) < Val(b)
  {
    hide Val, RPow;
    difference := new int[16](i => 0);
    borrow := 0;
    ValEmpty(a, b, difference[..]);
    for i := 0 to 16
      invariant 0 <= borrow <= 1 && forall k | 0 <= k < i :: 0 <= difference[k] < R
      invariant Val(difference[..i]) == Val(a[..i]) - Val(b[..i]) + borrow * RPow(i)
    {
      var d := a[i] - b[i] - borrow;
      ghost var done := difference[..i];
      difference[i] := d % R;
      assert difference[..i + 1] == done + [d % R];
      BorrowStep(done, a, b, i, borrow, d, d % R, if d < 0 then 1 else 0);
      borrow := if d < 0 then 1 else 0;
    }
    assert a[..16] == a && b[..16] == b && difference[..16] == difference[..];
    ValBound(difference[..]);
    ValBound(a);
    ValBound(b);
  }

  lemma ValEmpty(a: seq<int>, b: seq<int>, c: seq<int>)
    ensures Val(a[..0]) == Val(b[..0]) == Val(c[..0]) == 0
  {
  }

  // ed25519_fe_conditional_subtract_p.
  method ConditionalSubtractP(value: array<int>)
    requires value.Length == 16 && Limbs16(value[..])
    modifies value
    ensures Limbs16(value[..])
    ensures Val(value[..]) == var v := old(Val(value[..])); if v < P then v else v - P
  {
    hide Val, RPow;
    PLimbsValue();
    PLimbsRange();
    var difference, borrow := SubtractLimbs(value[..], PLimbs());
    ghost var s, d := value[..], difference[..];
    var select := borrow == 0;
    for i := 0 to 16
      invariant difference[..] == d
      invariant forall k | 0 <= k < 16 :: value[k] == if k < i && select then difference[k] else s[k]
    {
      value[i] := if select then difference[i] else value[i];
    }
    assert value[..] == if select then difference[..] else s;
  }

  lemma PLimbsRange()
    ensures Limbs16(PLimbs()) && Reduced(PLimbs())
  {
  }

  /** A reduced value is less than 2p, so one conditional subtraction makes it canonical. */
  lemma OneSubtraction(v: int)
    requires 0 <= v < TWO_255
    ensures (if v < P then v else v - P) == v % P
  {
    if v < P {
      DivModUnique(v, P, 0, v);
    } else {
      DivModUnique(v, P, 1, v - P);
    }
  }

  /** Limbs in range with a value below 2^255 have a top limb below 2^15. */
  lemma TopBelow(s: seq<int>)
    requires Limbs16(s) && Val(s) < TWO_255
    ensures Reduced(s)
  {
    hide Val, RPow;
    assert s[..16] == s;
    ValPrefix(s, 15);
    ValBound(s[..15]);
    RPowValues();
    if s[15] >= TOP {
      MulMono(TOP, s[15], RPow(15));
    }
  }

  // ed25519_reduce_16: after the third pass every limb is in range, and the fourth changes nothing.
  method Reduce16(value: array<int>) returns (out: seq<int>)
    requires value.Length == 16 && forall i | 0 <= i < 16 :: 0 <= value[i] < LIMIT
    modifies value
    ensures Canonical(out) && Val(out) == old(Val(value[..])) % P
  {
    hide Val, RPow, Fold;
    ghost var v := Val(value[..]);
    ValLoose(value[..], LIMIT);
    TwoFolds(v);
    FoldSmall(Fold(Fold(v)));
    for round := 0 to 4
      invariant round > 0 ==> (forall i | 1 <= i < 16 :: 0 <= value[i] < R) && value[15] < TOP
      invariant forall i | 0 <= i < 16 :: 0 <= value[i] <= LIMIT
      invariant round > 2 ==> value[0] < R
      invariant Val(value[..]) == if round == 0 then v else if round == 1 then Fold(v) else Fold(Fold(v))
    {
      CarryPass(value);
    }
    FoldTwiceCongruent(v);
    ConditionalSubtractP(value);
    OneSubtraction(Fold(Fold(v)));
    DivMod(Fold(Fold(v)), P);
    CongSameMod(Fold(Fold(v)), v, P);
    TopBelow(value[..]);
    return value[..];
  }

  lemma FoldTwiceCongruent(v: int)
    ensures Cong(Fold(Fold(v)), v, P)
  {
    FoldCongruent(v);
    FoldCongruent(Fold(v));
    CongTrans(Fold(Fold(v)), Fold(v), v, P);
  }

  // ---------- field operations ----------

  lemma {:induction false} ValSum(a: seq<int>, b: seq<int>, c: seq<int>, k: int)
    requires |a| == |b| == |c| && forall i | 0 <= i < |a| :: c[i] == a[i] + k * b[i]
    ensures Val(c) == Val(a) + k * Val(b)
  {
    hide Val, RPow;
    if a == [] {
      ValEmpty(a, b, c);
      assert a[..0] == a && b[..0] == b && c[..0] == c;
    } else {
      var n := |a| - 1;
      ValSum(a[..n], b[..n], c[..n], k);
      assert a[..n + 1] == a && b[..n + 1] == b && c[..n + 1] == c;
      ValPrefix(a, n);
      ValPrefix(b, n);
      ValPrefix(c, n);
      SumArithmetic(a[n], b[n], k, RPow(n));
    }
  }

  lemma SumArithmetic(x: int, y: int, k: int, w: int)
    ensures (x + k * y) * w == x * w + k * (y * w)
  {
    MulAssoc(k, y, w);
  }

  // ed25519_fe_add.
  method FeAdd(a: seq<int>, b: seq<int>) returns (out: seq<int>)
    requires Limbs16(a) && Limbs16(b)
    ensures Canonical(out) && Val(out) == (Val(a) + Val(b)) % P
  {
    hide Val;
    var value := new int[16];
    for i := 0 to 16
      invariant forall k | 0 <= k < i :: value[k] == a[k] + b[k]
    {
      value[i] := a[i] + b[i];
    }
    ValSum(a, b, value[..], 1);
    out := Reduce16(value);
  }

  lemma AddStep(done: seq<int>, a: seq<int>, b: seq<int>, i: nat, carry: int, sum: int, low: int, high: int)
    requires i < |a| == |b| && |done| == i && sum == a[i] + b[i] + carry && sum == high * R + low
    requires Val(done) + carry * RPow(i) == Val(a[..i]) + Val(b[..i])
    ensures Val(done + [low]) + high * RPow(i + 1) == Val(a[..i + 1]) + Val(b[..i + 1])
  {
    hide Val, RPow;
    ValAppend(done, low);
    ValPrefix(a, i);
    ValPrefix(b, i);
    RPowStep(i);
    AddArithmetic(a[i], b[i], carry, sum, low, high, RPow(i));
  }

  lemma AddArithmetic(x: int, y: int, carry: int, sum: int, low: int, high: int, w: int)
    requires sum == x + y + carry && sum == high * R + low
    ensures low * w + high * (R * w) == x * w + y * w + carry * w
  {
    assert high * (R * w) == (high * R) * w;
    assert sum * w == (high * R) * w + low * w;
    assert sum * w == x * w + y * w + carry * w;
  }

  /** What is added to a difference: p after a borrow, else nothing. */
  function Addend(borrow: int): (s: seq<int>)
    ensures |s| == 16
  {
    seq(16, i requires 0 <= i < 16 => if borrow == 1 then PLimb(i) else 0)
  }

  lemma AddendValue(borrow: int)
    ensures Limbs16(Addend(borrow)) && Val(Addend(borrow)) == if borrow == 1 then P else 0
  {
    if borrow == 1 {
      assert Addend(borrow) == PLimbs();
      PLimbsValue();
    } else {
      ValZero(Addend(borrow));
    }
  }

  // ed25519_fe_sub: subtract modulo 2^256 and add p after a borrow, dropping the carry out.
  method FeSub(a: seq<int>, b: seq<int>) returns (out: seq<int>)
    requires Canonical(a) && Canonical(b)
    ensures Canonical(out) && Val(out) == (Val(a) - Val(b)) % P
  {
    hide Val, RPow, PLimb;
    var result, borrow := SubtractLimbs(a, b);
    ghost var r, m := result[..], Addend(borrow);
    AddendValue(borrow);
    ValEmpty(r, m, r);
    var carry := 0;
    for i := 0 to 16
      invariant 0 <= carry <= 1 && (forall k | i <= k < 16 :: result[k] == r[k]) && forall k | 0 <= k < i :: 0 <= result[k] < R
      invariant Val(result[..i]) + carry * RPow(i) == Val(r[..i]) + Val(m[..i])
    {
      var sum := result[i] + (if borrow == 1 then PLimb(i) else 0) + carry;
      ghost var done := result[..i];
      assert sum == r[i] + m[i] + carry;
      DivMod(sum, R);
      result[i] := sum % R;
      assert result[..i + 1] == done + [sum % R];
      AddStep(done, r, m, i, carry, sum, sum % R, sum / R);
      carry := sum / R;
    }
    assert r[..16] == r && m[..16] == m && result[..16] == result[..];
    out := result[..];
    SubtractEnd(a, b, out, borrow, carry);
  }

  lemma SubtractEnd(a: seq<int>, b: seq<int>, out: seq<int>, borrow: int, carry: int)
    requires Canonical(a) && Canonical(b) && Limbs16(out) && 0 <= borrow <= 1 && 0 <= carry <= 1
    requires borrow == 1 <==> Val(a) < Val(b)
    requires Val(out) + carry * RPow(16) == Val(a) - Val(b) + borrow * RPow(16) + (if borrow == 1 then P else 0)
    ensures Canonical(out) && Val(out) == (Val(a) - Val(b)) % P
  {
    hide Val, RPow;
    ReducedBound(a);
    ReducedBound(b);
    ValBound(out);
    RPowValues();
    var d := Val(a) - Val(b);
    if borrow == 1 {
      DivModUnique(d, P, -1, d + P);
    } else {
      DivModUnique(d, P, 0, d);
    }
    TopBelow(out);
  }

  // ---------- multiplication ----------

  const SQUARE := 0xffff * 0xffff

  lemma ProductStep(s: seq<int>, s': seq<int>, i: nat, j: nat, x: int, w: int, b: seq<int>, more: int, start: int)
    requires j < |b| && i + j < |s| && w == x * RPow(i) && more == x * b[j] && s' == s[i + j := s[i + j] + more]
    requires Val(s) == start + w * Val(b[..j])
    ensures Val(s') == start + w * Val(b[..j + 1])
  {
    hide Val, RPow;
    ValUpdate(s, i + j, s[i + j] + more);
    ValPrefix(b, j);
    RPowAdd(i, j);
    ProductArithmetic(x, b[j], more, RPow(i), RPow(j), RPow(i + j), w, Val(b[..j]));
  }

  lemma ProductArithmetic(x: int, y: int, xy: int, wi: int, wj: int, wij: int, w: int, prefix: int)
    requires xy == x * y && wij == wi * wj && w == x * wi
    ensures w * (prefix + y * wj) == w * prefix + xy * wij
  {
    assert w * (prefix + y * wj) == w * prefix + w * (y * wj);
    calc {
      w * (y * wj);
      { MulAssoc(w, y, wj); }
      ((x * wi) * y) * wj;
      { assert (x * wi) * y == (x * y) * wi; }
      (xy * wi) * wj;
      { MulAssoc(xy, wi, wj); }
      xy * wij;
    }
  }

  /** No entry gains more than one product of two limbs per row. */
  ghost predicate RowBounds(s: seq<int>, i: nat, j: nat) {
    |s| == 31 && forall k | 0 <= k < 31 :: 0 <= s[k] <= (if i <= k < i + j then i + 1 else i) * SQUARE
  }

  // The schoolbook product of radix-2^16 limbs without carries.
  method LimbProducts(a: seq<int>, b: seq<int>) returns (product: array<int>)
    requires Limbs16(a) && Limbs16(b)
    ensures fresh(product) && product.Length == 31 && Val(product[..]) == Val(a) * Val(b)
    ensures forall k | 0 <= k < 31 :: 0 <= product[k] <= 16 * SQUARE
  {
    hide Val, RPow, RowBounds;
    product := new int[31](i => 0);
    RowBoundsEdges(product[..], 0);
    ValZero(product[..]);
    ValEmpty(a, b, a);
    for i := 0 to 16
      invariant RowBounds(product[..], i, 0)
      invariant Val(product[..]) == Val(a[..i]) * Val(b)
    {
      ghost var start, w := Val(product[..]), a[i] * RPow(i);
      for j := 0 to 16
        invariant RowBounds(product[..], i, j)
        invariant Val(product[..]) == start + w * Val(b[..j])
      {
        ghost var s := product[..];
        var more := a[i] * b[j];
        product[i + j] := product[i + j] + more;
        LimbProduct(a[i], b[j]);
        RowBoundsStep(s, product[..], i, j, more);
        ProductStep(s, product[..], i, j, a[i], w, b, more, start);
      }
      assert b[..16] == b;
      RowBoundsEdges(product[..], i);
      ValPrefix(a, i);
      assert (Val(a[..i]) + w) * Val(b) == Val(a[..i]) * Val(b) + w * Val(b);
    }
    assert a[..16] == a;
    RowBoundsEdges(product[..], 16);
  }

  lemma RowBoundsEdges(s: seq<int>, i: nat)
    ensures |s| == 31 && (forall k | 0 <= k < 31 :: s[k] == 0) ==> RowBounds(s, 0, 0)
    ensures i <= 15 && RowBounds(s, i, 16) ==> RowBounds(s, i + 1, 0)
    ensures RowBounds(s, 16, 0) ==> forall k | 0 <= k < 31 :: 0 <= s[k] <= 16 * SQUARE
  {
  }

  lemma RowBoundsStep(s: seq<int>, s': seq<int>, i: nat, j: nat, more: int)
    requires RowBounds(s, i, j) && i < 16 && j < 16 && s' == s[i + j := s[i + j] + more] && 0 <= more <= SQUARE
    ensures RowBounds(s', i, j + 1)
  {
  }

  lemma LimbProduct(x: int, y: int)
    requires 0 <= x < R && 0 <= y < R
    ensures 0 <= x * y <= SQUARE
  {
    MulBound(x, 0xffff, y, 0xffff);
  }

  /** 2^256 is 38 modulo p: the upper fifteen entries come back 38-fold. */
  lemma FoldHigh(product: seq<int>, reduced: seq<int>)
    requires |product| == 31 && |reduced| == 16 && reduced[15] == product[15]
    requires forall i | 0 <= i < 15 :: reduced[i] == product[i] + product[i + 16] * 38
    ensures Cong(Val(reduced), Val(product), P)
  {
    hide Val, RPow;
    var low, high := product[..16], product[16..];
    assert product == low + high;
    ValConcat(low, high);
    var padded := high + [0];
    ValAppend(high, 0);
    ValSum(low, padded, reduced, 38);
    RPowValues();
    assert Val(high) * RPow(16) == Val(high) * (2 * TWO_255);
    CongIntro(Val(reduced), Val(product), P, -2 * Val(high));
  }

  // ed25519_fe_mul.
  method FeMul(a: seq<int>, b: seq<int>) returns (out: seq<int>)
    requires Limbs16(a) && Limbs16(b)
    ensures Canonical(out) && Val(out) == (Val(a) * Val(b)) % P
  {
    hide Val, RPow;
    var product := LimbProducts(a, b);
    ghost var s := product[..];
    for i := 31 downto 16
      invariant forall k | i <= k < 31 :: product[k - 16] == s[k - 16] + s[k] * 38
      invariant forall k | 0 <= k < 31 && !(i - 16 <= k < 15) :: product[k] == s[k]
    {
      product[i - 16] := product[i - 16] + product[i] * 38;
    }
    var reduced := new int[16](i => 0);
    ghost var folded := product[..];
    for i := 0 to 16
      invariant product[..] == folded
      invariant forall k | 0 <= k < i :: reduced[k] == folded[k]
    {
      reduced[i] := product[i];
    }
    FoldedEntries(s, folded, reduced[..]);
    FoldHigh(s, reduced[..]);
    CongSameMod(Val(reduced[..]), Val(s), P);
    out := Reduce16(reduced);
  }

  /** The folded entries are below 2^42. */
  lemma FoldedEntries(s: seq<int>, folded: seq<int>, reduced: seq<int>)
    requires |s| == |folded| == 31 && |reduced| == 16
    requires forall k | 0 <= k < 31 :: 0 <= s[k] <= 16 * SQUARE
    requires forall k | 16 <= k < 31 :: folded[k - 16] == s[k - 16] + s[k] * 38
    requires folded[15] == s[15] && forall k | 0 <= k < 16 :: reduced[k] == folded[k]
    ensures reduced[15] == s[15] && forall i | 0 <= i < 15 :: reduced[i] == s[i] + s[i + 16] * 38
    ensures forall i | 0 <= i < 16 :: 0 <= reduced[i] < 0x400_0000_0000 < LIMIT
  {
    forall i | 0 <= i < 16
      ensures i < 15 ==> reduced[i] == s[i] + s[i + 16] * 38
      ensures 0 <= reduced[i] < 0x400_0000_0000
    {
      if i < 15 {
        assert folded[(i + 16) - 16] == s[(i + 16) - 16] + s[i + 16] * 38;
      }
    }
  }

  function Scaled(a: seq<int>, multiplier: int): (s: seq<int>)
    ensures |s| == |a|
  {
    seq(|a|, i requires 0 <= i < |a| => a[i] * multiplier)
  }

  lemma ScaledValue(a: seq<int>, multiplier: int)
    requires Limbs16(a) && 0 <= multiplier < 0x1_0000_0000
    ensures Val(Scaled(a, multiplier)) == Val(a) * multiplier
    ensures forall i | 0 <= i < 16 :: 0 <= Scaled(a, multiplier)[i] < LIMIT
  {
    hide Val;
    var s, zeros := Scaled(a, multiplier), seq(16, i => 0);
    ValZero(zeros);
    forall i | 0 <= i < 16
      ensures s[i] == zeros[i] + multiplier * a[i] && 0 <= s[i] < LIMIT
    {
      MulBound(a[i], R, multiplier, 0x1_0000_0000);
    }
    ValSum(zeros, a, s, multiplier);
  }

  // x25519_fe_mul_small.
  method FeMulSmall(a: seq<int>, multiplier: int) returns (out: seq<int>)
    requires Limbs16(a) && 0 <= multiplier < 0x1_0000_0000
    ensures Canonical(out) && Val(out) == (Val(a) * multiplier) % P
  {
    hide Val;
    var value := new int[16](i => 0);
    ghost var s := Scaled(a, multiplier);
    for i := 0 to 16
      invariant forall k | 0 <= k < i :: value[k] == s[k]
    {
      value[i] := a[i] * multiplier;
    }
    assert value[..] == s;
    ScaledValue(a, multiplier);
    out := Reduce16(value);
  }

  // ---------- powers ----------

  lemma OneLimb(s: seq<int>)
    requires |s| == 16 && s[0] == 1 && forall i | 1 <= i < 16 :: s[i] == 0
    ensures Canonical(s) && Val(s) == 1
  {
    hide Val, RPow;
    assert s[0 := 0][0 := 1] == s;
    ValZero(s[0 := 0]);
    ValUpdate(s[0 := 0], 0, 1);
    FirstPower();
  }

  /** Square and multiply: one more bit of the exponent. */
  lemma PowerStep(x: int, h: nat, bit: nat, r: int, squared: int)
    requires 0 <= bit <= 1 && r == Pow(x, h) % P && squared == (r * r) % P
    ensures (if bit == 1 then (squared * x) % P else squared) == Pow(x, 2 * h + bit) % P
  {
    hide Pow;
    var y := Pow(x, h);
    PowAdd(x, h, h);
    CongMod(y, P);
    CongMul(r, y, r, y, P);
    CongSameMod(r * r, y * y, P);
    if bit == 1 {
      PowNext(x, 2 * h);
      CongMod(y * y, P);
      CongScale(squared, y * y, x, P);
      CongSameMod(squared * x, y * y * x, P);
      assert y * y * x == x * (y * y);
    }
  }

  lemma PowNext(x: int, e: nat)
    ensures Pow(x, e + 1) == x * Pow(x, e) && Pow(x, 0) == 1
  {
  }

  // ed25519_fe_pow.
  method FePow(input: seq<int>, exponent: seq<byte>, exponentBits: nat) returns (out: seq<int>)
    requires Canonical(input) && exponentBits <= 8 * |exponent|
    ensures Canonical(out) && Val(out) == Pow(Val(input), BitsFrom(exponent, 0, exponentBits)) % P
  {
    hide Val, RPow, Pow;
    var result := seq(16, i => if i == 0 then 1 else 0);
    OneLimb(result);
    NoBits(exponent, exponentBits);
    PowNext(Val(input), 0);
    for bit := exponentBits downto 0
      invariant Canonical(result) && Val(result) == Pow(Val(input), BitsFrom(exponent, bit, exponentBits)) % P
    {
      ghost var r, h := Val(result), BitsFrom(exponent, bit + 1, exponentBits);
      MoreBits(exponent, bit, exponentBits);
      result := FeMul(result, result);
      PowerStep(Val(input), h, Bit(exponent, bit), r, Val(result));
      if Bit(exponent, bit) == 1 {
        result := FeMul(result, input);
      }
    }
    return result;
  }

  /** ED25519_INVERSE_EXPONENT. */
  function InverseExponent(): (s: seq<byte>)
    ensures |s| == 32
  {
    seq(32, i requires 0 <= i < 32 => if i == 0 then 0xeb else if i == 31 then 0x7f else 0xff)
  }

  lemma InverseExponentIs()
    ensures BitsFrom(InverseExponent(), 0, 255) == P - 2
  {
    hide BitsFrom, Bit, LeValue, InverseExponent;
    var s := InverseExponent();
    BytesAreBits(s);
    InverseTopBit();
    DropTopBit(s, 255);
    InverseExponentBytes();
  }

  lemma InverseTopBit()
    ensures Bit(InverseExponent(), 255) == 0
  {
    hide Pow, Bit;
    BitAt(InverseExponent(), 31, 7);
    PowStep(2, 7);
    Pow2Values();
  }

  lemma InverseExponentBytes()
    ensures LeValue(InverseExponent()) == P - 2
  {
    hide Pow, LeValue, InverseExponent;
    var s := InverseExponent();
    AllOnesBytes(s, 30);
    LeStep(s);
    assert s[0] == 0xeb && s[31..] == [0x7f] by {
      FirstAndLast();
    }
    LeStep([0x7f]);
    TenBytes();
    PowAdd(256, 10, 10);
    PowAdd(256, 20, 10);
  }

  lemma FirstAndLast()
    ensures InverseExponent()[0] == 0xeb && InverseExponent()[31..] == [0x7f]
  {
  }

  lemma LeStep(s: seq<byte>)
    requires s != []
    ensures LeValue(s) == s[0] + 256 * LeValue(s[1..]) && (|s| == 1 ==> LeValue(s) == s[0])
  {
  }

  lemma TenBytes()
    ensures Pow(256, 10) == 0x1_0000_0000_0000_0000_0000
  {
  }

  lemma {:induction false} AllOnesBytes(s: seq<byte>, k: nat)
    requires s == InverseExponent() && k <= 30
    ensures LeValue(s[31 - k..]) == Pow(256, k) - 1 + Pow(256, k) * LeValue(s[31..])
  {
    hide LeValue, Pow;
    PowNext(256, 0);
    if k > 0 {
      AllOnesBytes(s, k - 1);
      LeStep(s[31 - k..]);
      assert s[31 - k..][1..] == s[31 - (k - 1)..];
      PowNext(256, k - 1);
      MulAssoc(256, Pow(256, k - 1), LeValue(s[31..]));
    }
  }

  // ed25519_fe_invert: the power p - 2.
  method FeInvert(input: seq<int>) returns (out: seq<int>)
    requires Canonical(input)
    ensures Canonical(out) && Val(out) == Pow(Val(input), P - 2) % P
  {
    InverseExponentIs();
    out := FePow(input, InverseExponent(), 255);
  }

  // ---------- encoding ----------

  function LowByte(x: int): byte {
    x % 256
  }

  /** Two bytes per limb, low byte first. */
  function Encoded(s: seq<int>): (e: seq<byte>)
    ensures |e| == 2 * |s|
  {
    seq(2 * |s|, i requires 0 <= i < 2 * |s| => if i % 2 == 0 then LowByte(s[i / 2]) else LowByte(s[i / 2] / 256))
  }

  lemma {:induction false} EncodedValue(s: seq<int>)
    requires forall i | 0 <= i < |s| :: 0 <= s[i] < R
    ensures LeValue(Encoded(s)) == Val(s)
  {
    hide LeValue, Val, RPow, Pow;
    if s == [] {
      LeEmpty();
    } else {
      var k := |s| - 1;
      var low, high := LowByte(s[k]), LowByte(s[k] / 256);
      EncodedValue(s[..k]);
      assert Encoded(s) == Encoded(s[..k]) + [low, high];
      LeConcat(Encoded(s[..k]), [low, high]);
      TwoBytes(low, high);
      BytePower(k);
      SplitLimb(s[k]);
      assert s[..k] + [s[k]] == s;
      ValAppend(s[..k], s[k]);
    }
  }

  lemma SplitLimb(x: int)
    requires 0 <= x < R
    ensures x == LowByte(x) as int + 256 * LowByte(x / 256) as int
  {
  }

  lemma LeEmpty()
    ensures LeValue([]) == 0 && Val([]) == 0
  {
  }

  lemma TwoBytes(low: byte, high: byte)
    ensures LeValue([low, high]) == low + 256 * high
  {
    LeStep([low, high]);
    assert [low, high][1..] == [high];
    LeStep([high]);
  }

  lemma {:induction false} BytePower(k: nat)
    ensures Pow(256, 2 * k) == RPow(k)
  {
    if k > 0 {
      BytePower(k - 1);
      assert Pow(256, 2 * k) == 256 * (256 * Pow(256, 2 * (k - 1)));
    }
  }

  /** The limbs that sixteen pairs of bytes stand for. */
  function Paired(s: seq<byte>): (limbs: seq<int>)
    requires |s| == 32
    ensures |limbs| == 16
  {
    seq(16, i requires 0 <= i < 16 => Pair(s[2 * i], s[2 * i + 1]))
  }

  function Pair(low: int, high: int): int {
    low + 256 * high
  }

  lemma PairedValue(s: seq<byte>)
    requires |s| == 32
    ensures Limbs16(Paired(s)) && Encoded(Paired(s)) == s && Val(Paired(s)) == LeValue(s)
    ensures s[31] < 128 ==> Reduced(Paired(s))
  {
    hide Val, LeValue, Pair, LowByte, Paired, Encoded;
    var limbs := Paired(s);
    forall i | 0 <= i < 16
      ensures 0 <= limbs[i] < R && (i == 15 && s[31] < 128 ==> limbs[i] < TOP)
    {
      PairedAt(s, i);
    }
    EncodedPairs(s);
    EncodedValue(limbs);
  }

  lemma PairedAt(s: seq<byte>, i: nat)
    requires |s| == 32 && i < 16
    ensures 0 <= Paired(s)[i] < R && (s[2 * i + 1] < 128 ==> Paired(s)[i] < TOP)
  {
    hide Pair, LowByte;
    UnpairedBytes(s[2 * i], s[2 * i + 1]);
  }

  lemma EncodedPairs(s: seq<byte>)
    requires |s| == 32
    ensures Encoded(Paired(s)) == s
  {
    hide Pair, LowByte;
    var limbs := Paired(s);
    forall i | 0 <= i < 32
      ensures Encoded(limbs)[i] == s[i]
    {
      var k := i / 2;
      UnpairedBytes(s[2 * k], s[2 * k + 1]);
      if i % 2 == 0 {
        assert i == 2 * k && Encoded(limbs)[i] == LowByte(limbs[k]);
      } else {
        assert i == 2 * k + 1 && Encoded(limbs)[i] == LowByte(limbs[k] / 256);
      }
    }
  }

  lemma UnpairedBytes(low: byte, high: byte)
    ensures LowByte(Pair(low, high)) == low && LowByte(Pair(low, high) / 256) == high && 0 <= Pair(low, high) < R
    ensures high < 128 ==> Pair(low, high) < TOP
  {
  }

  // ed25519_fe_to_bytes.
  method FeToBytes(input: seq<int>) returns (output: seq<byte>)
    requires Limbs16(input)
    ensures |output| == 32 && LeValue(output) == if Val(input) < P then Val(input) else Val(input) - P
  {
    hide Val, LeValue;
    var canonical := new int[16](i requires 0 <= i < 16 reads {} => input[i]);
    assert canonical[..] == input;
    ConditionalSubtractP(canonical);
    ghost var c := canonical[..];
    var bytes := new byte[32](i => 0);
    for i := 0 to 16
      invariant canonical[..] == c
      invariant forall k | 0 <= k < 2 * i :: bytes[k] == Encoded(c)[k]
    {
      bytes[2 * i] := LowByte(canonical[i]);
      bytes[2 * i + 1] := LowByte(canonical[i] / 256);
    }
    EncodedValue(c);
    assert bytes[..] == Encoded(c);
    output := bytes[..];
  }

  /** The sign bit of the last byte cleared. */
  function Masked(input: seq<byte>): (s: seq<byte>)
    requires |input| == 32
    ensures |s| == 32 && s[31] < 128
  {
    input[31 := input[31] % 128]
  }

  lemma MaskedValue(input: seq<byte>)
    requires |input| == 32
    ensures LeValue(Masked(input)) == LeValue(input) % TWO_255
  {
    hide LeValue, Masked;
    var masked := Masked(input);
    LastByte(input);
    LastByte(masked);
    MaskedBytes(input);
    TopBit(LeValue(input), LeValue(input[..31]), input[31], LeValue(masked), masked[31]);
  }

  lemma MaskedBytes(input: seq<byte>)
    requires |input| == 32
    ensures Masked(input)[..31] == input[..31] && Masked(input)[31] == input[31] % 128
  {
  }

  /** The top bit of the last byte is what a remainder modulo 2^255 drops. */
  lemma TopBit(v: nat, low: nat, top: nat, m: nat, kept: nat)
    requires low < TWO_248 && top < 256 && kept == top % 128 && v == low + TWO_248 * top && m == low + TWO_248 * kept
    ensures m == v % TWO_255
  {
    DivModUnique(v, TWO_255, top / 128, m);
  }

  // x25519_fe_from_bytes: the top bit is dropped, and values from p on are taken modulo p.
  method FeFromBytes(input: seq<byte>) returns (out: seq<int>)
    requires |input| == 32
    ensures Canonical(out) && Val(out) == LeValue(input) % TWO_255 % P
  {
    hide Val, LeValue, Paired;
    var limbs := Paired(Masked(input));
    PairedValue(Masked(input));
    MaskedValue(input);
    ReducedBound(limbs);
    var value := new int[16](i requires 0 <= i < 16 reads {} => limbs[i]);
    assert value[..] == limbs;
    ConditionalSubtractP(value);
    OneSubtraction(Val(limbs));
    out := value[..];
    TopBelow(out);
  }

  // ed25519_fe_from_canonical_bytes: accepts exactly the encodings of numbers below p.
  method FeFromCanonicalBytes(input: seq<byte>) returns (ok: bool, out: seq<int>)
    requires |input| == 32
    ensures ok <==> LeValue(input) % TWO_255 < P
    ensures Canonical(out) && Val(out) == if ok then LeValue(input) % TWO_255 else 0
  {
    hide Val, LeValue, Paired;
    MaskedValue(input);
    var masked := Masked(input);
    PairedValue(masked);
    ReducedBound(Paired(masked));
    var limbs := Paired(masked);
    var value := new int[16](i requires 0 <= i < 16 reads {} => limbs[i]);
    assert value[..] == limbs;
    ConditionalSubtractP(value);
    var encoded := FeToBytes(value[..]);
    ok := masked == encoded;
    if !ok && LeValue(masked) == LeValue(encoded) {
      LeInjective(masked, encoded);
    }
    if ok {
      out := value[..];
      TopBelow(out);
    } else {
      out := seq(16, i => 0);
      ValZero(out);
    }
  }

  /** Encoding a field element and decoding it again gives it back. */
  lemma DecodeEncoded(s: seq<int>, bytes: seq<byte>)
    requires Canonical(s) && |bytes| == 32 && LeValue(bytes) == Val(s)
    ensures Masked(bytes) == bytes && LeValue(Masked(bytes)) < P && Paired(bytes) == s
  {
    hide Val, LeValue, Paired, Encoded;
    EncodedValue(s);
    LeInjective(bytes, Encoded(s));
    PairedIsInverse(s);
  }

  lemma PairedIsInverse(s: seq<int>)
    requires Reduced(s)
    ensures Paired(Encoded(s)) == s && Masked(Encoded(s)) == Encoded(s)
  {
    var e := Encoded(s);
    forall i | 0 <= i < 16
      ensures Paired(e)[i] == s[i]
    {
      assert e[2 * i] == LowByte(s[i]) && e[2 * i + 1] == LowByte(s[i] / 256);
      SplitLimb(s[i]);
    }
    assert e[31] == LowByte(s[15] / 256);
  }
}
