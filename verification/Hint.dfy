/** Decompositions, recovery modulo 2q from a residue and a parity, and the hint of a signature. */
module Hint {
  import opened Arith
  import opened Reduce

  const N := 256

  // ---------- modulo 2q from modulo q and modulo 2 ----------

  // crypto_haetae_poly_fromcrt.
  method FromCrt(u: array<int>, v: array<int>) returns (w: array<int>)
    requires u.Length == v.Length == 256
    ensures fresh(w) && w.Length == 256
    ensures forall i | 0 <= i < 256 :: w[i] == Recombined(u[i], v[i])
  {
    w := new int[N](i => 0);
    for i := 0 to N
      invariant forall k | 0 <= k < i :: w[k] == Recombined(u[k], v[k])
    {
      var xq, x2 := u[i], v[i];
      w[i] := xq + (if (xq + x2) % 2 == 1 then Q else 0);
    }
  }

  /** Adds q exactly when the parities differ. */
  function Recombined(xq: int, x2: int): int {
    if xq % 2 == x2 % 2 then xq else xq + Q
  }

  /** After freeze2q it is the one number in [0, 2q) with the given residue and the given parity. */
  lemma RecombinedIsUnique(xq: int, x2: int, r: int)
    requires r == Recombined(xq, x2) % DOUBLE_Q
    ensures 0 <= r < DOUBLE_Q && r % Q == xq % Q && r % 2 == x2 % 2
    ensures forall w | 0 <= w < DOUBLE_Q && w % Q == xq % Q && w % 2 == x2 % 2 :: w == r
  {
    var c := Recombined(xq, x2);
    DivMod(c, DOUBLE_Q);
    var k := c / DOUBLE_Q;
    CongIntro(r, xq, Q, (if c == xq then 0 else 1) - 2 * k);
    CongSameMod(r, xq, Q);
    SameParity(xq, x2, c, k, r);
    forall w | 0 <= w < DOUBLE_Q && w % Q == xq % Q && w % 2 == x2 % 2
      ensures w == r
    {
      OneOfEachParity(w, r);
    }
  }

  /** 2q is even and q is odd. */
  lemma SameParity(xq: int, x2: int, c: int, k: int, r: int)
    requires c == Recombined(xq, x2) && c == k * DOUBLE_Q + r
    ensures r % 2 == x2 % 2
  {
    assert (2 * (k * Q) + r) % 2 == r % 2;
    assert c % 2 == x2 % 2;
  }

  lemma OneOfEachParity(w: int, r: int)
    requires 0 <= w < DOUBLE_Q && 0 <= r < DOUBLE_Q && w % Q == r % Q && w % 2 == r % 2
    ensures w == r
  {
    SameModCong(w, r, Q);
    var k := CongElim(w, r, Q);
    assert -1 <= k <= 1;
  }

  // Recovery of one coefficient: fromcrt, then freeze2q.
  method Recover(xq: int, x2: int) returns (r: int)
    requires Int32(xq) && Int32(xq + Q)
    ensures 0 <= r < DOUBLE_Q && r % Q == xq % Q && r % 2 == x2 % 2
  {
    r := Freeze2Q(Recombined(xq, x2));
    RecombinedIsUnique(xq, x2, r);
  }

  // ---------- high bits ----------

  /** alpha and its logarithm, for the three parameter sets. */
  datatype Step = Step(alpha: int, log: nat) {
    predicate Valid() {
      this == Step(512, 9) || this == Step(256, 8)
    }

    /** The number of high-bits values. */
    function Count(): int
      requires Valid()
    {
      (DOUBLE_Q - 2) / alpha
    }
  }

  /** The nearest multiple of alpha, counted in steps, with the topmost values wrapped to 0. */
  function HighBits(r: int, step: Step): int
    requires step.Valid()
  {
    var hb := (r + step.alpha / 2) / step.alpha;
    if hb >= step.Count() then hb - step.Count() else hb
  }

  lemma ShiftIsStep(step: Step)
    requires step.Valid()
    ensures Pow(2, step.log) == step.alpha
  {
    Pow2Values();
    assert Pow(2, 9) == 2 * Pow(2, 8);
  }

  // crypto_haetae_decompose_hint.
  method DecomposeHint(r: int, step: Step) returns (highbits: int)
    requires step.Valid() && 0 <= r < DOUBLE_Q
    ensures highbits == HighBits(r, step)
  {
    ShiftIsStep(step);
    var hb := (r + step.alpha / 2) / Pow(2, step.log);
    var edgecase := (step.Count() - (hb + 1)) / 0x8000_0000;
    if edgecase == -1 {
      hb := hb - step.Count();
    }
    return hb;
  }

  /** In range, and within half a step of r; only the values that wrap are off by the two that 2q has beyond its steps. */
  lemma HighBitsRound(r: int, step: Step)
    requires step.Valid() && 0 <= r < DOUBLE_Q
    ensures var hb, a := HighBits(r, step), step.alpha;
      && 0 <= hb < step.Count() && step.Count() * a == DOUBLE_Q - 2
      && (r < DOUBLE_Q - 2 - a / 2 ==> -a / 2 <= r - hb * a < a / 2)
      && (r >= DOUBLE_Q - 2 - a / 2 ==> hb == 0 && -a / 2 - 2 <= r - DOUBLE_Q < 0)
  {
  }

  // ---------- the hint ----------

  /** One entry of crypto_haetae_polyveck_caddDQ2ALPHA. */
  function AddIfNegative(h: int, count: int): int {
    if h < 0 then h + count else h
  }

  /** One entry of crypto_haetae_polyveck_csubDQ2ALPHA. */
  function SubtractIfAbove(x: int, count: int): int {
    if x - count < 0 then x else x - count
  }

  // The hint for one coefficient, as signing makes it.
  method MakeHint(w: int, w': int, step: Step) returns (h: int)
    requires step.Valid() && 0 <= w < DOUBLE_Q && 0 <= w' < DOUBLE_Q
    ensures 0 <= h < step.Count() && h == (HighBits(w, step) - HighBits(w', step)) % step.Count()
  {
    HighBitsRound(w, step);
    HighBitsRound(w', step);
    var hb := DecomposeHint(w, step);
    var hb' := DecomposeHint(w', step);
    h := AddIfNegative(hb - hb', step.Count());
    DivModUnique(hb - hb', step.Count(), if hb < hb' then -1 else 0, h);
  }

  // The high bits that verification reads off w' and a hint.
  method UseHint(w': int, h: int, step: Step) returns (hb: int)
    requires step.Valid() && 0 <= w' < DOUBLE_Q && 0 <= h < step.Count()
    ensures 0 <= hb < step.Count() && hb == (HighBits(w', step) + h) % step.Count()
  {
    HighBitsRound(w', step);
    var hb' := DecomposeHint(w', step);
    hb := SubtractIfAbove(hb' + h, step.Count());
    DivModUnique(hb' + h, step.Count(), if hb' + h < step.Count() then 0 else 1, hb);
  }

  /** Among the hints in range, exactly the one signing makes leads verification back to the signer's high bits. */
  lemma HintRecovers(w: int, w': int, h: int, step: Step)
    requires step.Valid() && 0 <= w < DOUBLE_Q && 0 <= w' < DOUBLE_Q && 0 <= h < step.Count()
    ensures SubtractIfAbove(HighBits(w', step) + h, step.Count()) == HighBits(w, step)
       <==> h == AddIfNegative(HighBits(w, step) - HighBits(w', step), step.Count())
  {
    HighBitsRound(w, step);
    HighBitsRound(w', step);
  }

  // The loops over a polynomial.
  method CAdd(h: array<int>, count: int)
    modifies h
    ensures forall i | 0 <= i < h.Length :: h[i] == if old(h[i]) < 0 then old(h[i]) + count else old(h[i])
  {
    for i := 0 to h.Length
      invariant forall k | 0 <= k < i :: h[k] == AddIfNegative(old(h[k]), count)
      invariant forall k | i <= k < h.Length :: h[k] == old(h[k])
    {
      h[i] := AddIfNegative(h[i], count);
    }
  }

  method CSub(v: array<int>, count: int)
    modifies v
    ensures forall i | 0 <= i < v.Length :: v[i] == if old(v[i]) < count then old(v[i]) else old(v[i]) - count
  {
    for i := 0 to v.Length
      invariant forall k | 0 <= k < i :: v[k] == SubtractIfAbove(old(v[k]), count)
      invariant forall k | i <= k < v.Length :: v[k] == old(v[k])
    {
      v[i] := SubtractIfAbove(v[i], count);
    }
  }

  // ---------- the other decompositions ----------

  // crypto_haetae_decompose_z1.
  method DecomposeZ1(r: int) returns (highbits: int, lowbits: int)
    requires Int32(r + 128)
    ensures r == highbits * 256 + lowbits && -128 <= lowbits < 128
    ensures -64 < lowbits <= 64 <==> (r + 63) % 256 < 128
  {
    var lb := r % 256;
    var center := (128 - (lb + 1)) / 0x8000_0000;
    if center == -1 {
      lb := lb - 256;
    }
    lowbits := lb;
    highbits := (r + 128) / 256;
  }

  // crypto_haetae_decompose_vk: the low part is 1, not only -1 or 0, when the input is 1 modulo 4.
  method DecomposeVk(a: int) returns (a1: int, a0: int)
    requires 0 <= a < Q
    ensures a == 2 * a1 + a0 && -1 <= a0 <= 1
    ensures if a % 2 == 0 then a0 == 0 else a1 % 2 == 0
    ensures -1 <= a0 < 1 <==> a % 4 != 1
  {
    a0 := a % 2;
    ghost var half := a / 2;
    DivModUnique(a, 4, half / 2, 2 * (half % 2) + a % 2);
    if a / 2 % 2 == 1 && a0 == 1 {
      a0 := a0 - 2;
    }
    a1 := (a - a0) / 2;
    DivModUnique(a - a0, 2, if a0 < 0 then half + 1 else half, 0);
  }
}
