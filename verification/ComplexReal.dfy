/** Exact complex arithmetic and distances. */
module ComplexReal {

  datatype Cx = Cx(re: real, im: real)

  const ZERO := Cx(0.0, 0.0)
  const ONE := Cx(1.0, 0.0)

  function Add(x: Cx, y: Cx): Cx {
    Cx(x.re + y.re, x.im + y.im)
  }

  function Sub(x: Cx, y: Cx): Cx {
    Cx(x.re - y.re, x.im - y.im)
  }

  function Mul(x: Cx, y: Cx): Cx {
    Cx(x.re * y.re - x.im * y.im, x.re * y.im + x.im * y.re)
  }

  function Times(c: real, x: Cx): Cx {
    Cx(c * x.re, c * x.im)
  }

  function Power(z: Cx, n: nat): Cx {
    if n == 0 then ONE else Mul(z, Power(z, n - 1))
  }

  /** The square of the absolute value. */
  function Norm2(x: Cx): real {
    x.re * x.re + x.im * x.im
  }

  /** x lies within distance e of y. */
  predicate Near(x: Cx, y: Cx, e: real) {
    0.0 <= e && Norm2(Sub(x, y)) <= e * e
  }

  // ---------- ring laws ----------

  lemma MulCommutes(x: Cx, y: Cx)
    ensures Mul(x, y) == Mul(y, x)
  {
  }

  lemma MulAssociates(x: Cx, y: Cx, z: Cx)
    ensures Mul(Mul(x, y), z) == Mul(x, Mul(y, z))
  {
  }

  lemma RealAdd(a: real, x: real, y: real)
    ensures a * (x + y) == a * x + a * y
  {
  }

  lemma RealSub(a: real, x: real, y: real)
    ensures a * (x - y) == a * x - a * y
  {
  }

  lemma RealAssociates(a: real, x: real, y: real)
    ensures a * (x * y) == (a * x) * y == x * (a * y)
  {
  }

  lemma MulAdd(x: Cx, y: Cx, z: Cx)
    ensures Mul(x, Add(y, z)) == Add(Mul(x, y), Mul(x, z))
  {
    RealAdd(x.re, y.re, z.re);
    RealAdd(x.re, y.im, z.im);
    RealAdd(x.im, y.re, z.re);
    RealAdd(x.im, y.im, z.im);
  }

  lemma MulSub(x: Cx, y: Cx, z: Cx)
    ensures Mul(x, Sub(y, z)) == Sub(Mul(x, y), Mul(x, z))
  {
    RealSub(x.re, y.re, z.re);
    RealSub(x.re, y.im, z.im);
    RealSub(x.im, y.re, z.re);
    RealSub(x.im, y.im, z.im);
  }

  lemma TimesMul(c: real, x: Cx, y: Cx)
    ensures Times(c, Mul(x, y)) == Mul(Times(c, x), y)
  {
    RealSub(c, x.re * y.re, x.im * y.im);
    RealAdd(c, x.re * y.im, x.im * y.re);
    RealAssociates(c, x.re, y.re);
    RealAssociates(c, x.im, y.im);
    RealAssociates(c, x.re, y.im);
    RealAssociates(c, x.im, y.re);
  }

  lemma OneMul(x: Cx)
    ensures Mul(ONE, x) == x
  {
  }

  lemma {:induction false} PowerAdd(z: Cx, m: nat, n: nat)
    ensures Power(z, m + n) == Mul(Power(z, m), Power(z, n))
  {
    hide Mul;
    if m == 0 {
      OneMul(Power(z, n));
    } else {
      PowerAdd(z, m - 1, n);
      MulAssociates(z, Power(z, m - 1), Power(z, n));
    }
  }

  // ---------- absolute values ----------

  lemma NormMul(x: Cx, y: Cx)
    ensures Norm2(Mul(x, y)) == Norm2(x) * Norm2(y)
  {
    var a, b, c, d := x.re, x.im, y.re, y.im;
    var ac, bd, ad, bc := a * c, b * d, a * d, b * c;
    assert ac * bd == ad * bc;
    assert (ac - bd) * (ac - bd) == ac * ac - 2.0 * (ac * bd) + bd * bd;
    assert (ad + bc) * (ad + bc) == ad * ad + 2.0 * (ad * bc) + bc * bc;
    assert ac * ac == (a * a) * (c * c) && bd * bd == (b * b) * (d * d);
    assert ad * ad == (a * a) * (d * d) && bc * bc == (b * b) * (c * c);
  }

  lemma NormNonNegative(x: Cx)
    ensures 0.0 <= Norm2(x)
  {
    assert 0.0 <= x.re * x.re && 0.0 <= x.im * x.im;
  }

  lemma RealMono(x: real, y: real, z: real)
    requires x <= y && 0.0 <= z
    ensures x * z <= y * z
  {
  }

  lemma RealStrict(c: real, x: real, y: real)
    requires x < y && 0.0 < c
    ensures c * x < c * y
  {
    assert 0.0 < c * (y - x);
    RealSub(c, y, x);
  }

  lemma RealCancel(c: real, x: real, y: real)
    requires 0.0 < c && c * x <= c * y
    ensures x <= y
  {
    if y < x {
      RealStrict(c, y, x);
    }
  }

  lemma SquareMono(x: real, y: real)
    requires 0.0 <= x <= y
    ensures x * x <= y * y
  {
    RealMono(x, y, x);
    RealMono(x, y, y);
  }

  lemma SquareStrict(x: real, y: real)
    requires 0.0 <= x < y
    ensures x * x < y * y
  {
    var d := y - x;
    assert y * y == x * x + 2.0 * (x * d) + d * d;
    assert 0.0 <= x * d && 0.0 < d * d;
  }

  lemma SquareOrder(x: real, y: real)
    requires 0.0 <= y && x * x <= y * y
    ensures -y <= x <= y
  {
    var n := -x;
    assert n * n == x * x;
    if x > y {
      SquareStrict(y, x);
      assert false;
    }
    if n > y {
      SquareStrict(y, n);
      assert false;
    }
  }

  lemma ProductBound(x: real, xb: real, y: real, yb: real)
    requires 0.0 <= x <= xb && 0.0 <= y <= yb
    ensures 0.0 <= x * y <= xb * yb
  {
    RealMono(x, xb, y);
    RealMono(y, yb, xb);
  }

  /** The triangle inequality, for absolute values at most a and b. */
  lemma Triangle(x: Cx, y: Cx, a: real, b: real)
    requires 0.0 <= a && 0.0 <= b && Norm2(x) <= a * a && Norm2(y) <= b * b
    ensures Norm2(Add(x, y)) <= (a + b) * (a + b)
  {
    var dot, cross := x.re * y.re + x.im * y.im, x.re * y.im - x.im * y.re;
    Lagrange(x, y);
    NormNonNegative(x);
    NormNonNegative(y);
    ProductBound(Norm2(x), a * a, Norm2(y), b * b);
    assert (a * a) * (b * b) == (a * b) * (a * b);
    assert 0.0 <= cross * cross && 0.0 <= a * b;
    SquareOrder(dot, a * b);
    SumNorm(x, y);
    assert (a + b) * (a + b) == a * a + 2.0 * (a * b) + b * b;
  }

  lemma SumNorm(x: Cx, y: Cx)
    ensures Norm2(Add(x, y)) == Norm2(x) + 2.0 * (x.re * y.re + x.im * y.im) + Norm2(y)
  {
    assert (x.re + y.re) * (x.re + y.re) == x.re * x.re + 2.0 * (x.re * y.re) + y.re * y.re;
    assert (x.im + y.im) * (x.im + y.im) == x.im * x.im + 2.0 * (x.im * y.im) + y.im * y.im;
  }

  lemma Lagrange(x: Cx, y: Cx)
    ensures var dot, cross := x.re * y.re + x.im * y.im, x.re * y.im - x.im * y.re;
      dot * dot + cross * cross == Norm2(x) * Norm2(y)
  {
    NormMul(Cx(x.re, -x.im), y);
    assert (-x.im) * (-x.im) == x.im * x.im;
  }

  // ---------- distances ----------

  lemma NearSelf(x: Cx)
    ensures Near(x, x, 0.0)
  {
  }

  lemma NearSymmetric(x: Cx, y: Cx, e: real)
    requires Near(x, y, e)
    ensures Near(y, x, e)
  {
    var u, v := x.re - y.re, x.im - y.im;
    assert (-u) * (-u) == u * u && (-v) * (-v) == v * v;
  }

  lemma NearWider(x: Cx, y: Cx, e: real, f: real)
    requires Near(x, y, e) && e <= f
    ensures Near(x, y, f)
  {
    SquareMono(e, f);
  }

  lemma NearTransitive(x: Cx, y: Cx, z: Cx, e: real, f: real)
    requires Near(x, y, e) && Near(y, z, f)
    ensures Near(x, z, e + f)
  {
    Triangle(Sub(x, y), Sub(y, z), e, f);
    assert Add(Sub(x, y), Sub(y, z)) == Sub(x, z);
  }

  lemma NearAdd(x: Cx, y: Cx, e: real, u: Cx, v: Cx, f: real)
    requires Near(x, y, e) && Near(u, v, f)
    ensures Near(Add(x, u), Add(y, v), e + f) && Near(Sub(x, u), Sub(y, v), e + f)
  {
    Triangle(Sub(x, y), Sub(u, v), e, f);
    assert Add(Sub(x, y), Sub(u, v)) == Sub(Add(x, u), Add(y, v));
    NearSymmetric(u, v, f);
    Triangle(Sub(x, y), Sub(v, u), e, f);
    assert Add(Sub(x, y), Sub(v, u)) == Sub(Sub(x, u), Sub(y, v));
  }

  /** A common factor of absolute value at most c scales the distance. */
  lemma NearScale(w: Cx, x: Cx, y: Cx, e: real, c: real)
    requires Near(x, y, e) && 0.0 <= c && Norm2(w) <= c * c
    ensures Near(Mul(w, x), Mul(w, y), c * e)
  {
    NormMul(w, Sub(x, y));
    MulSub(w, x, y);
    NormNonNegative(w);
    NormNonNegative(Sub(x, y));
    ProductBound(Norm2(w), c * c, Norm2(Sub(x, y)), e * e);
    assert (c * c) * (e * e) == (c * e) * (c * e);
    ProductBound(c, c, e, e);
  }

  /** A number near one of absolute value at most a is itself at most a + e. */
  lemma NearBound(x: Cx, y: Cx, e: real, a: real)
    requires Near(x, y, e) && 0.0 <= a && Norm2(y) <= a * a
    ensures Norm2(x) <= (e + a) * (e + a)
  {
    Triangle(Sub(x, y), y, e, a);
    assert Add(Sub(x, y), y) == x;
  }

  /** Distance between products, through the product of the first factor with the second limit. */
  lemma NearProduct(x: Cx, u: Cx, e: real, a: real, y: Cx, v: Cx, f: real, b: real)
    requires Near(x, u, e) && Near(y, v, f) && 0.0 <= a && 0.0 <= b && Norm2(x) <= a * a && Norm2(v) <= b * b
    ensures Near(Mul(x, y), Mul(u, v), a * f + b * e)
  {
    NearScale(x, y, v, f, a);
    NearScale(v, x, u, e, b);
    MulCommutes(v, x);
    MulCommutes(v, u);
    NearTransitive(Mul(x, y), Mul(x, v), Mul(u, v), a * f, b * e);
  }

  /** Components are no further apart than the numbers. */
  lemma NearComponents(x: Cx, y: Cx, e: real)
    requires Near(x, y, e)
    ensures -e <= x.re - y.re <= e && -e <= x.im - y.im <= e
  {
    var u, v := x.re - y.re, x.im - y.im;
    assert 0.0 <= u * u && 0.0 <= v * v;
    SquareOrder(u, e);
    SquareOrder(v, e);
  }
}
