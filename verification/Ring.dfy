/** Multiplication modulo X^256 + 1 through the two transforms. */
module Ring {
  import opened Arith
  import opened Reduce
  import opened Ntt
  import opened NttCode

  /** Coefficient k of a[..n] * b modulo X^256 + 1: what runs past degree 255 comes back negated. */
  function Coefficient(a: seq<int>, b: seq<int>, k: nat, n: nat): int
    requires |a| == |b| == N && k < N && n <= N
  {
    if n == 0 then 0
    else Coefficient(a, b, k, n - 1) + a[n - 1] * (if n - 1 <= k then b[k - (n - 1)] else -b[N + k - (n - 1)])
  }

  /** The product of a and b modulo X^256 + 1. */
  function Product(a: seq<int>, b: seq<int>): (p: seq<int>)
    requires |a| == |b| == N
    ensures |p| == N
  {
    Partial(a, b, N)
  }

  function Partial(a: seq<int>, b: seq<int>, n: nat): (p: seq<int>)
    requires |a| == |b| == N && n <= N
    ensures |p| == N
  {
    seq(N, k requires 0 <= k < N => Coefficient(a, b, k, n))
  }

  /** b times X^n. */
  function Shifted(b: seq<int>, n: nat): (s: seq<int>)
    requires |b| == N && n <= N
    ensures |s| == N
  {
    Negation(b[N - n..]) + b[..N - n]
  }

  function Negation(b: seq<int>): (s: seq<int>)
    ensures |s| == |b|
  {
    seq(|b|, j requires 0 <= j < |b| => -b[j])
  }

  lemma EvalNegation(b: seq<int>, r: int)
    ensures Eq(Eval(Negation(b), r), -Eval(b, r))
  {
    forall j | 0 <= j < |b|
      ensures Eq(Negation(b)[j], -1 * b[j] + 0 * b[j])
    {
      CongRefl(-b[j], Q);
    }
    EvalLinear(Negation(b), b, b, -1, 0, r);
  }

  lemma EvalShifted(b: seq<int>, n: nat, r: int)
    requires |b| == N && n <= N && Eq(Pow(r, N), -1)
    ensures Eq(Eval(Shifted(b, n), r), Pow(r, n) * Eval(b, r))
  {
    hide Eq, Cong, Eval, Pow, Negation;
    var lo, hi := b[..N - n], b[N - n..];
    assert lo + hi == b;
    EvalConcat(Negation(hi), lo, r);
    EvalConcat(lo, hi, r);
    EvalNegation(hi, r);
    PowAdd(r, n, N - n);
    ShiftArithmetic(Eval(Shifted(b, n), r), Eval(Negation(hi), r), Eval(lo, r), Eval(hi, r), Pow(r, n), Pow(r, N - n));
  }

  lemma ShiftArithmetic(e: int, h': int, lo: int, hi: int, p: int, q: int)
    requires e == h' + p * lo && Eq(h', -hi) && Eq(p * q, -1)
    ensures Eq(e, p * (lo + q * hi))
  {
    CongScale(p * q, -1, hi, Q);
    CongSym((p * q) * hi, -1 * hi, Q);
    CongTrans(h', -hi, (p * q) * hi, Q);
    CongRefl(p * lo, Q);
    CongAdd(h', (p * q) * hi, p * lo, p * lo, Q);
    assert p * (lo + q * hi) == p * lo + (p * q) * hi by {
      MulAssoc(p, q, hi);
    }
  }

  lemma {:induction false} EvalPartial(a: seq<int>, b: seq<int>, n: nat, r: int)
    requires |a| == |b| == N && n <= N && Eq(Pow(r, N), -1)
    ensures Eq(Eval(Partial(a, b, n), r), Eval(a[..n], r) * Eval(b, r))
  {
    if n == 0 {
      EvalZero(Partial(a, b, 0), r);
    } else {
      var m := n - 1;
      EvalPartial(a, b, m, r);
      PartialStep(a, b, m);
      EvalLinear(Partial(a, b, n), Partial(a, b, m), Shifted(b, m), 1, a[m], r);
      EvalShifted(b, m, r);
      assert a[..n] == a[..m] + [a[m]];
      EvalConcat(a[..m], [a[m]], r);
      EvalSingle([a[m]], r);
      PartialArithmetic(Eval(Partial(a, b, n), r), Eval(Partial(a, b, m), r), Eval(Shifted(b, m), r), a[m],
                        Pow(r, m), Eval(a[..m], r), Eval(b, r));
    }
  }

  lemma EvalZero(s: seq<int>, r: int)
    requires forall j | 0 <= j < |s| :: s[j] == 0
    ensures Eq(Eval(s, r), 0)
  {
    forall j | 0 <= j < |s|
      ensures Eq(s[j], 0 * s[j] + 0 * s[j])
    {
      CongRefl(0, Q);
    }
    EvalLinear(s, s, s, 0, 0, r);
  }

  lemma PartialStep(a: seq<int>, b: seq<int>, m: nat)
    requires |a| == |b| == N && m < N
    ensures Combines(Partial(a, b, m + 1), Partial(a, b, m), Shifted(b, m), 1, a[m])
  {
    var p, q, s := Partial(a, b, m + 1), Partial(a, b, m), Shifted(b, m);
    forall k | 0 <= k < N
      ensures Eq(p[k], 1 * q[k] + a[m] * s[k])
    {
      assert s[k] == if m <= k then b[k - m] else -b[N + k - m];
      CongRefl(p[k], Q);
    }
  }

  lemma PartialArithmetic(e: int, e': int, s: int, c: int, p: int, x: int, y: int)
    requires Eq(e, 1 * e' + c * s) && Eq(e', x * y) && Eq(s, p * y)
    ensures Eq(e, (x + p * c) * y)
  {
    CongScale(s, p * y, c, Q);
    CongAdd(e', x * y, c * s, c * (p * y), Q);
    assert (x + p * c) * y == x * y + c * (p * y) by {
      assert (x + p * c) * y == x * y + (p * c) * y;
      MulAssoc(c, p, y);
    }
    CongTrans(e, e' + c * s, (x + p * c) * y, Q);
  }

  /** At a root of X^256 + 1 the product takes the product of the values. */
  lemma EvalProduct(a: seq<int>, b: seq<int>, r: int)
    requires |a| == |b| == N && Eq(Pow(r, N), -1)
    ensures Eq(Eval(Product(a, b), r), Eval(a, r) * Eval(b, r))
  {
    EvalPartial(a, b, N, r);
    assert a[..N] == a;
  }

  lemma RootOfModulus(t: Transform, i: nat)
    requires t.Valid() && i < N
    ensures Eq(Pow(t.Root(i), N), -1)
  {
    assert Start(1) == 0 && Size(1) == N;
    t.RootPower(1, i);
  }

  /** Coefficients below Q in absolute value are determined modulo Q by the values at the 256 roots. */
  lemma SameValues(t: Transform, a: seq<int>, b: seq<int>)
    requires t.Valid() && |a| == |b| == N
    requires forall i | 0 <= i < N :: Eq(Eval(a, t.Root(i)), Eval(b, t.Root(i)))
    ensures forall k | 0 <= k < N :: Eq(a[k], b[k])
  {
    hide Cong, Eval, Start, Size, Combination, Transform.W, Transform.Root;
    var d := Combination(a, b, -1);
    forall i | 0 <= i < N
      ensures Eq(Eval(d, t.Root(i)), 0 * a[i])
    {
      EvalLinear(d, a, b, 1, -1, t.Root(i));
      SameZero(Eval(d, t.Root(i)), Eval(a, t.Root(i)), Eval(b, t.Root(i)));
    }
    RootBlock();
    t.ZeroFromRoots(d, a, 1);
    forall k | 0 <= k < N
      ensures Eq(a[k], b[k])
    {
      CombinesAt(d, a, b, 1, -1, k);
      ZeroSame(d[k], a[k], b[k]);
    }
  }

  lemma RootBlock()
    ensures Start(1) == 0 && Size(1) == N
  {
  }

  lemma CombinesAt(d: seq<int>, a: seq<int>, b: seq<int>, x: int, y: int, k: nat)
    requires Combines(d, a, b, x, y) && k < |d|
    ensures |d| == |a| == |b| && Eq(d[k], x * a[k] + y * b[k])
  {
  }

  lemma SameZero(d: int, x: int, y: int)
    requires Eq(d, 1 * x + -1 * y) && Eq(x, y)
    ensures Eq(d, 0)
  {
    CongRefl(y, Q);
    CongSub(x, y, y, y, Q);
    CongTrans(d, x - y, 0, Q);
  }

  lemma ZeroSame(d: int, x: int, y: int)
    requires Eq(d, 1 * x + -1 * y) && Eq(d, 0)
    ensures Eq(x, y)
  {
    CongSym(d, x - y, Q);
    CongTrans(x - y, d, 0, Q);
  }

  /** From the values of the three transforms to the coefficients of the product. */
  lemma ProductFromValues(t: Transform, a: seq<int>, b: seq<int>, a': seq<int>, b': seq<int>, c: seq<int>, out: seq<int>)
    requires t.Valid() && |a| == |b| == |a'| == |b'| == |c| == |out| == N
    requires t.IsTransform(a, a') && t.IsTransform(b, b')
    requires forall i | 0 <= i < N :: Eq(c[i] * MONT, a'[i] * b'[i])
    requires forall i | 0 <= i < N :: Eq(Eval(out, t.Root(i)), MONT * c[i])
    ensures forall k | 0 <= k < N :: Eq(out[k], Product(a, b)[k])
  {
    forall i | 0 <= i < N
      ensures Eq(Eval(out, t.Root(i)), Eval(Product(a, b), t.Root(i)))
    {
      var r := t.Root(i);
      RootOfModulus(t, i);
      EvalProduct(a, b, r);
      CongMul(a'[i], Eval(a, r), b'[i], Eval(b, r), Q);
      CongTrans(MONT * c[i], a'[i] * b'[i], Eval(a, r) * Eval(b, r), Q);
      CongTrans(Eval(out, r), MONT * c[i], Eval(a, r) * Eval(b, r), Q);
      CongSym(Eval(Product(a, b), r), Eval(a, r) * Eval(b, r), Q);
      CongTrans(Eval(out, r), Eval(a, r) * Eval(b, r), Eval(Product(a, b), r), Q);
    }
    SameValues(t, out, Product(a, b));
  }

  // crypto_haetae_poly_pointwise_montgomery.
  method PointwiseMontgomery(c: array<int>, a: array<int>, b: array<int>)
    requires c.Length == a.Length == b.Length == N && c != a && c != b
    requires Bounded(a[..], 9 * (Q - 1)) && Bounded(b[..], 9 * (Q - 1))
    modifies c
    ensures forall i | 0 <= i < N :: Eq(c[i] * MONT, a[i] * b[i])
    ensures Bounded(c[..], Q - 1)
  {
    for i := 0 to N
      invariant forall j | 0 <= j < i :: Eq(c[j] * MONT, a[j] * b[j]) && -Q < c[j] < Q
    {
      PointwiseEntry(a[..], b[..], i);
      c[i] := MontgomeryReduce(a[i] * b[i]);
    }
  }

  lemma PointwiseEntry(a: seq<int>, b: seq<int>, i: nat)
    requires i < |a| == |b| && Bounded(a, 9 * (Q - 1)) && Bounded(b, 9 * (Q - 1))
    ensures Eq(MontgomeryReduce(a[i] * b[i]) * MONT, a[i] * b[i]) && -Q < MontgomeryReduce(a[i] * b[i]) < Q
  {
    MontgomeryCongruent(a[i] * b[i]);
    SmallProduct(a[i], b[i], 9 * (Q - 1));
    MontgomeryRange(a[i] * b[i]);
  }

  lemma SmallProduct(x: int, y: int, bound: int)
    requires -bound <= x <= bound && -bound <= y <= bound
    ensures -(bound * bound) <= x * y <= bound * bound
  {
    var u, w := if x < 0 then -x else x, if y < 0 then -y else y;
    MulBound(u, bound, w, bound);
    assert x * y == u * w || x * y == -(u * w);
  }

  // Transform both factors, multiply entry by entry, transform back.
  method Multiply(a: array<int>, b: array<int>) returns (c: array<int>)
    requires a.Length == b.Length == N && a != b && Bounded(a[..], Q - 1) && Bounded(b[..], Q - 1)
    modifies a, b
    ensures fresh(c) && c.Length == N && Bounded(c[..], Q - 1)
    ensures forall k | 0 <= k < N :: Eq(c[k], Product(old(a[..]), old(b[..]))[k])
  {
    var t := Haetae();
    HaetaeValid();
    ForwardNtt(a, t);
    ForwardNtt(b, t);
    c := new int[N];
    PointwiseMontgomery(c, a, b);
    ghost var v := c[..];
    InverseNtt(c, t);
    ProductFromValues(t, old(a[..]), old(b[..]), a[..], b[..], v, c[..]);
  }
}
