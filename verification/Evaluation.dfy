/** Exact values of polynomials at powers of the principal root, and how the stages of a transform build them. */
module Evaluation {
  import opened Arith
  import opened BitReversal
  import opened ComplexReal
  import opened RootAccuracy

  /** The value of the polynomial with coefficients c at w. */
  function Evaluate(c: seq<int>, w: Cx): Cx {
    if c == [] then ZERO else Add(Cx(c[0] as real, 0.0), Mul(w, Evaluate(c[1..], w)))
  }

  /** The value at w of the polynomial of every d-th coefficient from e on, n of them. */
  function Strided(c: seq<int>, e: nat, d: nat, n: nat, w: Cx): Cx
    decreases n
  {
    if n == 0 then ZERO else Add(Coefficient(c, e), Mul(w, Strided(c, e + d, d, n - 1, w)))
  }

  function Coefficient(c: seq<int>, e: nat): Cx {
    if e < |c| then Cx(c[e] as real, 0.0) else ZERO
  }

  lemma {:induction false} StridedIsEvaluate(c: seq<int>, e: nat, w: Cx)
    requires e <= |c|
    ensures Strided(c, e, 1, |c| - e, w) == Evaluate(c[e..], w)
    decreases |c| - e
  {
    if e < |c| {
      StridedIsEvaluate(c, e + 1, w);
      assert c[e..][1..] == c[e + 1..];
    }
  }

  /** Even and odd coefficients apart. */
  lemma {:induction false} SplitStrided(c: seq<int>, e: nat, d: nat, m: nat, w: Cx)
    ensures var w2 := Mul(w, w);
      Strided(c, e, d, 2 * m, w) == Add(Strided(c, e, 2 * d, m, w2), Mul(w, Strided(c, e + d, 2 * d, m, w2)))
    decreases m
  {
    hide Mul, Add;
    var w2 := Mul(w, w);
    if m == 0 {
      ZeroParts(w);
    } else {
      SplitStrided(c, e + 2 * d, d, m - 1, w);
      assert Strided(c, e, d, 2 * m, w) ==
        Add(Coefficient(c, e), Mul(w, Add(Coefficient(c, e + d), Mul(w, Strided(c, e + 2 * d, d, 2 * (m - 1), w)))));
      Regroup(Coefficient(c, e), Coefficient(c, e + d), w, Strided(c, e + 2 * d, 2 * d, m - 1, w2),
              Strided(c, e + 3 * d, 2 * d, m - 1, w2));
    }
  }

  lemma ZeroParts(w: Cx)
    ensures ZERO == Add(ZERO, Mul(w, ZERO))
  {
  }

  lemma Regroup(x: Cx, y: Cx, w: Cx, a: Cx, b: Cx)
    ensures var w2 := Mul(w, w);
      Add(x, Mul(w, Add(y, Mul(w, Add(a, Mul(w, b)))))) == Add(Add(x, Mul(w2, a)), Mul(w, Add(y, Mul(w2, b))))
  {
    hide Mul;
    MulAdd(w, y, Mul(w, Add(a, Mul(w, b))));
    MulAdd(w, a, Mul(w, b));
    MulAdd(w, Mul(w, a), Mul(w, Mul(w, b)));
    MulAssociates(w, w, a);
    MulAssociates(w, w, b);
    MulAdd(w, y, Mul(Mul(w, w), b));
  }

  /** Coefficients of size at most 2 and a point on the unit circle give at most 2 n. */
  lemma {:induction false} StridedBound(c: seq<int>, e: nat, d: nat, n: nat, w: Cx)
    requires Norm2(w) == 1.0 && forall i | 0 <= i < |c| :: -2 <= c[i] <= 2
    ensures Norm2(Strided(c, e, d, n, w)) <= (2.0 * n as real) * (2.0 * n as real)
    decreases n
  {
    hide Mul, Add, Norm2, Coefficient;
    if n > 0 {
      StridedBound(c, e + d, d, n - 1, w);
      var rest := Strided(c, e + d, d, n - 1, w);
      NormMul(w, rest);
      SmallCoefficient(c, e);
      Triangle(Coefficient(c, e), Mul(w, rest), 2.0, 2.0 * (n - 1) as real);
    } else {
      ZeroNorm();
    }
  }

  lemma ZeroNorm()
    ensures Norm2(ZERO) == 0.0
  {
  }

  lemma SmallCoefficient(c: seq<int>, e: nat)
    requires forall i | 0 <= i < |c| :: -2 <= c[i] <= 2
    ensures Norm2(Coefficient(c, e)) <= 2.0 * 2.0
  {
    if e < |c| {
      var x := c[e] as real;
      if x < 0.0 {
        SquareMono(-x, 2.0);
        assert (-x) * (-x) == x * x;
      } else {
        SquareMono(x, 2.0);
      }
    }
  }

  // ---------- blocks ----------

  /** What entry k of the block of n entries at b stands for: the coefficients whose index ends in the reversed bits of b,
      d apart, evaluated at an odd power of the root. */
  function Ideal(c: seq<int>, z: Cx, n: nat, d: nat, b: nat, k: nat): Cx
    requires b < SIZE
  {
    Mul(Power(z, Brv8(b)), Strided(c, Brv8(b), d, n, Power(z, d * (2 * k + 1))))
  }

  lemma {:induction false} PowerTimes(z: Cx, m: nat, n: nat)
    ensures 0 <= m * n && Power(z, m * n) == Power(Power(z, m), n)
  {
    hide Mul;
    if n > 0 {
      PowerTimes(z, m, n - 1);
      assert m * n == m + m * (n - 1);
      PowerAdd(z, m, m * (n - 1));
    }
  }

  /** The odd half of a block turned by the power of its twiddle. */
  lemma OddHalf(z: Cx, e: nat, d: nat, k: nat, p: Cx)
    ensures 0 <= 2 * (d * k) && 0 <= d * (2 * k + 1)
    ensures Mul(Power(z, e), Mul(Power(z, d * (2 * k + 1)), p)) == Mul(Power(z, 2 * (d * k)), Mul(Power(z, e + d), p))
  {
    hide Mul, Power;
    MulMono(0, d, k);
    assert d * (2 * k + 1) == 2 * (d * k) + d;
    PowerAdd(z, 2 * (d * k), d);
    PowerAdd(z, e, d);
    var x, y, t := Power(z, e), Power(z, d), Power(z, 2 * (d * k));
    MulAssociates(t, y, p);
    MulAssociates(x, t, Mul(y, p));
    MulCommutes(x, t);
    MulAssociates(t, x, Mul(y, p));
    MulAssociates(x, y, p);
  }

  /** The point for entry k squared is the one for the half blocks; the point for entry k + h is the opposite one. */
  lemma Points(z: Cx, h: nat, d: nat, k: nat)
    requires Power(z, 256) == Cx(-1.0, 0.0) && h * d == 128
    ensures 0 <= d * (2 * k + 1) && 0 <= d * (2 * (k + h) + 1) && 0 <= 2 * d * (2 * k + 1)
    ensures var w := Power(z, d * (2 * k + 1));
      && Mul(w, w) == Power(z, 2 * d * (2 * k + 1))
      && Power(z, d * (2 * (k + h) + 1)) == Mul(Cx(-1.0, 0.0), w)
      && Mul(Mul(Cx(-1.0, 0.0), w), Mul(Cx(-1.0, 0.0), w)) == Mul(w, w)
  {
    hide Power;
    var m := d * (2 * k + 1);
    MulMono(0, d, 2 * k + 1);
    assert 2 * d * (2 * k + 1) == m + m;
    PowerAdd(z, m, m);
    assert d * (2 * (k + h) + 1) == m + 256 by {
      assert d * (2 * (k + h) + 1) == d * (2 * k + 1) + 2 * (d * h);
    }
    PowerAdd(z, 256, m);
    Opposite(Power(z, m));
  }

  lemma Opposite(w: Cx)
    ensures Mul(Mul(Cx(-1.0, 0.0), w), Mul(Cx(-1.0, 0.0), w)) == Mul(w, w) && Mul(Cx(-1.0, 0.0), w) == Cx(-w.re, -w.im)
  {
  }

  /** One butterfly on the ideal values. */
  lemma IdealStep(c: seq<int>, z: Cx, h: nat, d: nat, b: nat, k: nat)
    requires Power(z, 256) == Cx(-1.0, 0.0) && PowerOfTwo(h) && h * d == 128
    requires b % (2 * h) == 0 && b + 2 * h <= SIZE && k < h
    ensures 0 <= 2 * (d * k)
    ensures var even, odd := Ideal(c, z, h, 2 * d, b, k), Mul(Power(z, 2 * (d * k)), Ideal(c, z, h, 2 * d, b + h, k));
      Ideal(c, z, 2 * h, d, b, k) == Add(even, odd) && Ideal(c, z, 2 * h, d, b, k + h) == Sub(even, odd)
  {
    hide Power, Mul, Brv8, Strided, Add;
    Brv8Inner(b, h);
    Brv8Power(h);
    assert d == Brv8(h) by {
      StrideOf(h, d);
    }
    var e, x := Brv8(b), Power(z, Brv8(b));
    Points(z, h, d, k);
    var w := Power(z, d * (2 * k + 1));
    var w2 := Mul(w, w);
    var p, q := Strided(c, e, 2 * d, h, w2), Strided(c, e + d, 2 * d, h, w2);
    SplitStrided(c, e, d, h, w);
    MulAdd(x, p, Mul(w, q));
    OddHalf(z, e, d, k, q);
    var minus := Mul(Cx(-1.0, 0.0), w);
    SplitStrided(c, e, d, h, minus);
    MinusHalf(x, p, w, q);
  }

  lemma MinusHalf(x: Cx, p: Cx, w: Cx, q: Cx)
    ensures Mul(x, Add(p, Mul(Mul(Cx(-1.0, 0.0), w), q))) == Sub(Mul(x, p), Mul(x, Mul(w, q)))
  {
    Opposite(w);
    NegatedProduct(w, q);
    var r := Mul(w, q);
    assert Add(p, Mul(Mul(Cx(-1.0, 0.0), w), q)) == Sub(p, r);
    MulSub(x, p, r);
  }

  lemma NegatedProduct(w: Cx, q: Cx)
    ensures Mul(Cx(-w.re, -w.im), q) == Cx(-Mul(w, q).re, -Mul(w, q).im)
  {
  }

  lemma StrideOf(h: nat, d: nat)
    requires PowerOfTwo(h) && h * d == 128
    ensures h == 1 ==> d == 128
    ensures h == 2 ==> d == 64
    ensures h == 4 ==> d == 32
    ensures h == 8 ==> d == 16
    ensures h == 16 ==> d == 8
    ensures h == 32 ==> d == 4
    ensures h == 64 ==> d == 2
    ensures h == 128 ==> d == 1
  {
  }
}
