/** Every entry of the shipped table is a power of the principal root, rounded to the nearest fraction. */
module RootAccuracy {
  import opened ComplexReal
  import opened RootTable

  const S := 4294967296.0 // SCALE

  function Exact(x: Complex): Cx {
    Cx(x.re as real, x.im as real)
  }

  /** z is the complex number exp(-i pi / 256): of the roots of z^256 = -1, the one next to 1 below the real axis. */
  ghost predicate PrincipalRoot(z: Cx) {
    Power(z, 256) == Cx(-1.0, 0.0) && 0.9998 < z.re && z.im < 0.0
  }

  // ---------- the root and its powers of two ----------

  lemma PowerDouble(z: Cx, n: nat)
    ensures Power(z, 2 * n) == Mul(Power(z, n), Power(z, n))
  {
    PowerAdd(z, n, n);
  }

  /** A square root of a number of absolute value 1 has absolute value 1. */
  lemma UnitRoot(w: Cx)
    requires Norm2(Mul(w, w)) == 1.0
    ensures Norm2(w) == 1.0
  {
    NormMul(w, w);
    NormNonNegative(w);
    var n := Norm2(w);
    if n < 1.0 {
      SquareStrict(n, 1.0);
    } else if n > 1.0 {
      SquareStrict(1.0, n);
    }
  }

  /** In the right half plane below the axis, squaring doubles the angle. */
  lemma DoubleAngle(w: Cx, c: real, d: real)
    requires Norm2(w) == 1.0 && 0.0 <= c < w.re && w.im < 0.0 && d <= 2.0 * (c * c) - 1.0
    ensures d < Mul(w, w).re && Mul(w, w).im < 0.0
  {
    SquareStrict(c, w.re);
    assert w.re * w.im < 0.0;
  }

  /** The square roots of -1. */
  lemma QuarterTurn(w: Cx)
    requires Mul(w, w) == Cx(-1.0, 0.0) && w.im < 0.0
    ensures w == Cx(0.0, -1.0)
  {
    var x, m := w.re, -w.im;
    assert m * x == 0.0 && m * 0.0 == 0.0;
    RealCancel(m, x, 0.0);
    RealCancel(m, 0.0, x);
    assert m * m == 1.0;
    if m < 1.0 {
      SquareStrict(m, 1.0);
    } else if m > 1.0 {
      SquareStrict(1.0, m);
    }
  }

  predicate Generator(n: nat) {
    n == 1 || n == 2 || n == 4 || n == 8 || n == 16 || n == 32 || n == 64
  }

  /** The repeated squares of the root lie on the unit circle, right of the imaginary axis up to a quarter turn. */
  lemma Located(z: Cx, n: nat)
    requires PrincipalRoot(z) && Generator(n)
    ensures Norm2(Power(z, n)) == 1.0 && Power(z, 2 * n) == Mul(Power(z, n), Power(z, n))
    ensures (if n == 64 then 0.28 else 0.8) < Power(z, n).re
    ensures Power(z, 128) == Cx(0.0, -1.0) && Norm2(z) == 1.0
  {
    hide Power, Mul, Norm2;
    PowerDouble(z, 1);
    PowerDouble(z, 2);
    PowerDouble(z, 4);
    PowerDouble(z, 8);
    PowerDouble(z, 16);
    PowerDouble(z, 32);
    PowerDouble(z, 64);
    PowerDouble(z, 128);
    HalfTurnNorm();
    UnitRoot(Power(z, 128));
    UnitRoot(Power(z, 64));
    UnitRoot(Power(z, 32));
    UnitRoot(Power(z, 16));
    UnitRoot(Power(z, 8));
    UnitRoot(Power(z, 4));
    UnitRoot(Power(z, 2));
    UnitRoot(Power(z, 1));
    PowerFirst(z);
    DoubleAngle(Power(z, 1), 0.9998, 0.9992);
    DoubleAngle(Power(z, 2), 0.9992, 0.9968);
    DoubleAngle(Power(z, 4), 0.9968, 0.9872);
    DoubleAngle(Power(z, 8), 0.9872, 0.949);
    DoubleAngle(Power(z, 16), 0.949, 0.8);
    DoubleAngle(Power(z, 32), 0.8, 0.28);
    DoubleAngle(Power(z, 64), 0.28, -0.9);
    QuarterTurn(Power(z, 128));
  }

  lemma HalfTurnNorm()
    ensures Norm2(Cx(-1.0, 0.0)) == 1.0
  {
  }

  lemma PowerFirst(z: Cx)
    ensures Power(z, 1) == z
  {
    OneMul(z);
    MulCommutes(z, ONE);
  }

  lemma {:induction false} UnitPower(z: Cx, n: nat)
    requires Norm2(z) == 1.0
    ensures Norm2(Power(z, n)) == 1.0
  {
    if n > 0 {
      UnitPower(z, n - 1);
      NormMul(z, Power(z, n - 1));
    }
  }

  // ---------- scaling ----------

  lemma ExactProduct(x: Complex, y: Complex)
    ensures Exact(Product(x, y)) == Mul(Exact(x), Exact(y))
  {
  }

  lemma TimesNorm(c: real, x: Cx)
    ensures Norm2(Times(c, x)) == (c * c) * Norm2(x)
  {
    assert (c * x.re) * (c * x.re) == (c * c) * (x.re * x.re);
    assert (c * x.im) * (c * x.im) == (c * c) * (x.im * x.im);
  }

  lemma TimesSub(c: real, x: Cx, y: Cx)
    ensures Sub(Times(c, x), Times(c, y)) == Times(c, Sub(x, y))
  {
  }

  lemma NearTimes(c: real, x: Cx, y: Cx, e: real)
    requires 0.0 <= c && Near(x, y, e)
    ensures Near(Times(c, x), Times(c, y), c * e)
  {
    TimesSub(c, x, y);
    TimesNorm(c, Sub(x, y));
    RealMono(Norm2(Sub(x, y)), e * e, c * c);
    SquareOfProduct(c, e);
  }

  lemma SquareOfProduct(c: real, e: real)
    ensures (c * e) * (c * e) == (c * c) * (e * e) && 0.0 <= c * c
    ensures 0.0 <= c && 0.0 <= e ==> 0.0 <= c * e
  {
  }

  lemma NearCancel(x: Cx, y: Cx, e: real)
    requires 0.0 <= e && Near(Times(S, x), Times(S, y), S * e)
    ensures Near(x, y, e)
  {
    hide Norm2, Sub, Times;
    TimesSub(S, x, y);
    TimesNorm(S, Sub(x, y));
    SquareOfProduct(S, e);
  }

  lemma TimesProduct(c: real, x: Cx, y: Cx)
    ensures Mul(Times(c, x), Times(c, y)) == Times(c, Times(c, Mul(x, y)))
  {
    TimesMul(c, x, Times(c, y));
    MulCommutes(x, Times(c, y));
    TimesMul(c, y, x);
    MulCommutes(x, y);
  }

  lemma MatchesNear(x: Complex, y: Complex)
    requires Matches(x, y)
    ensures Near(Exact(x), Times(S, Exact(y)), 2.0 * S)
  {
    var u, v := x.re - SCALE * y.re, x.im - SCALE * y.im;
    assert (u as real) * (u as real) + (v as real) * (v as real) <= 4.0 * S * S;
    assert Sub(Exact(x), Times(S, Exact(y))) == Cx(u as real, v as real);
  }

  // ---------- the precise powers ----------

  /** The distance of square roots, from that of their squares. */
  lemma RootNear(w: Cx, u: Cx, x: Complex, y: Complex, e: real, l: real)
    requires Mul(w, w) == u && Near(Times(S, u), Exact(y), e) && Matches(Product(x, x), y)
    requires 0.1 <= l && S * l <= S * w.re + x.re as real && e + 2.0 <= 5.0 * l
    ensures Near(Times(S, w), Exact(x), 5.0)
  {
    hide Mul, Norm2, Matches, Product, Near;
    var a, b := Times(S, w), Exact(x);
    assert S * e + 2.0 * S <= 5.0 * (S * l);
    TimesProduct(S, w, w);
    NearTimes(S, Times(S, u), Exact(y), e);
    MatchesNear(Product(x, x), y);
    ExactProduct(x, x);
    NearSymmetric(Mul(b, b), Times(S, Exact(y)), 2.0 * S);
    NearTransitive(Mul(a, a), Times(S, Exact(y)), Mul(b, b), S * e, 2.0 * S);
    SquaresApart(a, b, S * e + 2.0 * S, S * l);
  }

  /** If the squares are within 5 l and the sum is at least l long, the numbers are within 5. */
  lemma SquaresApart(a: Cx, b: Cx, e: real, l: real)
    requires Near(Mul(a, a), Mul(b, b), e) && 1.0 <= l <= a.re + b.re && e <= 5.0 * l
    ensures Near(a, b, 5.0)
  {
    hide Mul;
    var d, s := Sub(a, b), Add(a, b);
    Factors(a, b);
    NormMul(d, s);
    SquareMono(e, 5.0 * l);
    SquareMono(l, s.re);
    assert 0.0 <= s.im * s.im;
    BoundedFactor(Norm2(d), Norm2(s), e * e, l);
  }

  lemma BoundedFactor(n: real, m: real, q: real, l: real)
    requires n * m <= q && q <= (5.0 * l) * (5.0 * l) && l * l <= m && 1.0 <= l
    ensures n <= 25.0
  {
    SquareMono(1.0, l);
    if n > 25.0 {
      RealStrict(m, 25.0, n);
    }
  }

  lemma Factors(a: Cx, b: Cx)
    ensures Mul(Sub(a, b), Add(a, b)) == Sub(Mul(a, a), Mul(b, b))
  {
  }

  lemma ScaledUnit(u: Cx)
    requires Norm2(u) == 1.0
    ensures Norm2(Times(S, u)) <= S * S
  {
    TimesNorm(S, u);
  }

  /** The product of precise powers is a precise power. */
  lemma ProductNear(u: Cx, x: Complex, v: Cx, y: Complex, p: Complex, f: real)
    requires Norm2(u) == 1.0 && Norm2(v) == 1.0 && 0.0 <= f <= 200.0
    requires Near(Times(S, u), Exact(x), 5.0) && Near(Times(S, v), Exact(y), f) && Matches(Product(x, y), p)
    ensures Near(Times(S, Mul(u, v)), Exact(p), f + 8.0)
  {
    hide Mul, Norm2, Matches, Product, Times, Near, Exact;
    var a, b := Times(S, u), Times(S, v);
    ScaledUnit(u);
    ScaledUnit(v);
    NearPositive(b, Exact(y), f);
    NearSymmetric(b, Exact(y), f);
    NearBound(Exact(y), b, f, S);
    NearProduct(a, Exact(x), 5.0, S, b, Exact(y), f, f + S);
    TimesProduct(S, u, v);
    ExactProduct(x, y);
    MatchesNear(Product(x, y), p);
    NearTransitive(Mul(a, b), Mul(Exact(x), Exact(y)), Times(S, Exact(p)), S * f + (f + S) * 5.0, 2.0 * S);
    NearWider(Mul(a, b), Times(S, Exact(p)), S * f + (f + S) * 5.0 + 2.0 * S, S * (f + 8.0));
    NearCancel(Times(S, Mul(u, v)), Exact(p), f + 8.0);
  }

  lemma NearPositive(x: Cx, y: Cx, e: real)
    requires Near(x, y, e)
    ensures 0.0 <= e
  {
  }

  /** The repeated squares: their precise values are within 5 units of the last place. */
  lemma GeneratorNear(z: Cx, n: nat)
    requires PrincipalRoot(z) && (Generator(n) || n == 128)
    ensures Near(Times(S, Power(z, n)), Exact(if n < 16 then Fine(n) else Coarse(n / 16)), 5.0)
    decreases 128 - n
  {
    hide Power, Mul, Norm2, Matches, Product, Near, Fine, Coarse;
    Units();
    if n == 128 {
      Located(z, 64);
      QuarterNear();
    } else {
      GeneratorNear(z, 2 * n);
      Located(z, n);
      var y := if 2 * n < 16 then Fine(2 * n) else Coarse(2 * n / 16);
      if n < 16 {
        FineFacts(n);
        RootNear(Power(z, n), Power(z, 2 * n), Fine(n), y, 5.0, 1.6);
      } else {
        CoarseFacts(n / 16);
        if n == 64 {
          QuarterNear();
          RootNear(Power(z, n), Power(z, 2 * n), Coarse(n / 16), y, 0.0, 0.9);
        } else {
          RootNear(Power(z, n), Power(z, 2 * n), Coarse(n / 16), y, 5.0, 1.6);
        }
      }
    }
  }

  lemma QuarterNear()
    ensures Near(Times(S, Cx(0.0, -1.0)), Exact(Coarse(8)), 0.0) && Near(Times(S, Cx(0.0, -1.0)), Exact(Coarse(8)), 5.0)
  {
    hide Near, Coarse;
    Units();
    var x := Times(S, Cx(0.0, -1.0));
    assert x == Exact(Coarse(8));
    NearSelf(x);
    NearWider(x, x, 0.0, 5.0);
  }

  lemma UnitNear()
    ensures Near(Times(S, ONE), Exact(Fine(0)), 0.0) && Near(Times(S, ONE), Exact(Coarse(0)), 0.0)
  {
    hide Near, Coarse, Fine;
    Units();
    var x := Times(S, ONE);
    assert x == Exact(Fine(0));
    NearSelf(x);
  }

  lemma {:induction false} FineNear(z: Cx, i: nat)
    requires PrincipalRoot(z) && i < 16
    ensures Near(Times(S, Power(z, i)), Exact(Fine(i)), 8.0 * i as real)
  {
    hide Mul, Norm2, Matches, Product, Near, Fine, Coarse, PrincipalRoot, Times;
    if i == 0 {
      UnitNear();
    } else {
      var t := Top(i);
      FineFacts(i);
      GeneratorNear(z, t);
      if i == t {
        NearWider(Times(S, Power(z, i)), Exact(Fine(i)), 5.0, 8.0 * i as real);
      } else {
        FineNear(z, i - t);
        Located(z, 1);
        UnitPower(z, t);
        UnitPower(z, i - t);
        PowerAdd(z, t, i - t);
        var f := 8.0 * (i - t) as real;
        ProductNear(Power(z, t), Fine(t), Power(z, i - t), Fine(i - t), Fine(i), f);
        NearWider(Times(S, Power(z, i)), Exact(Fine(i)), f + 8.0, 8.0 * i as real);
      }
    }
  }

  lemma {:induction false} CoarseNear(z: Cx, i: nat)
    requires PrincipalRoot(z) && i < 16
    ensures Near(Times(S, Power(z, 16 * i)), Exact(Coarse(i)), 8.0 * i as real)
  {
    hide Mul, Norm2, Matches, Product, Near, Fine, Coarse, PrincipalRoot, Times;
    if i == 0 {
      UnitNear();
    } else {
      var t := Top(i);
      CoarseFacts(i);
      GeneratorNear(z, 16 * t);
      if i == t {
        NearWider(Times(S, Power(z, 16 * i)), Exact(Coarse(i)), 5.0, 8.0 * i as real);
      } else {
        CoarseNear(z, i - t);
        Located(z, 1);
        UnitPower(z, 16 * t);
        UnitPower(z, 16 * (i - t));
        PowerAdd(z, 16 * t, 16 * (i - t));
        var f := 8.0 * (i - t) as real;
        ProductNear(Power(z, 16 * t), Coarse(t), Power(z, 16 * (i - t)), Coarse(i - t), Coarse(i), f);
        NearWider(Times(S, Power(z, 16 * i)), Exact(Coarse(i)), f + 8.0, 8.0 * i as real);
      }
    }
  }

  // ---------- rounding ----------

  /** An exact value within half a unit of both components of a table entry. */
  predicate Rounds(entry: Complex, x: Cx) {
    -0.5 < entry.re as real - x.re < 0.5 && -0.5 < entry.im as real - x.im < 0.5
  }

  lemma RoundedProduct(u: Cx, x: Complex, v: Cx, y: Complex, entry: Complex)
    requires Norm2(u) == 1.0 && Norm2(v) == 1.0 && RoundsTo(Product(x, y), entry)
    requires Near(Times(S, u), Exact(x), 120.0) && Near(Times(S, v), Exact(y), 120.0)
    ensures Rounds(entry, Times(65536.0, Mul(u, v)))
  {
    hide Mul, Norm2, Product, Near;
    var a, b := Times(S, u), Times(S, v);
    ScaledUnit(u);
    ScaledUnit(v);
    NearSymmetric(b, Exact(y), 120.0);
    NearBound(Exact(y), b, 120.0, S);
    NearProduct(a, Exact(x), 120.0, S, b, Exact(y), 120.0, 120.0 + S);
    TimesProduct(S, u, v);
    ExactProduct(x, y);
    NearComponents(Mul(a, b), Mul(Exact(x), Exact(y)), S * 120.0 + (120.0 + S) * 120.0);
  }

  /** Every entry of the shipped table is the power of the principal root, rounded to the nearest. */
  lemma TableIsRounded(z: Cx, k: nat)
    requires PrincipalRoot(z) && k < 256
    ensures Rounds(Root(k), Times(65536.0, Power(z, k)))
  {
    hide Power, Mul, Norm2, Product, Near, Fine, Coarse, Root, Times, RoundsTo, Rounds, PrincipalRoot;
    var h, i := k / 16, k % 16;
    Rounded(h, i);
    CoarseNear(z, h);
    FineNear(z, i);
    NearWider(Times(S, Power(z, 16 * h)), Exact(Coarse(h)), 8.0 * h as real, 120.0);
    NearWider(Times(S, Power(z, i)), Exact(Fine(i)), 8.0 * i as real, 120.0);
    Located(z, 1);
    UnitPower(z, 16 * h);
    UnitPower(z, i);
    PowerAdd(z, 16 * h, i);
    RoundedProduct(Power(z, 16 * h), Coarse(h), Power(z, i), Fine(i), Root(k));
  }
}
