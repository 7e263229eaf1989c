/** Powers, division with a known quotient, and congruence of integers. */
module Arith {

  function Pow(b: int, e: nat): int {
    if e == 0 then 1 else b * Pow(b, e - 1)
  }

  lemma MulAssoc(x: int, y: int, z: int)
    ensures x * (y * z) == (x * y) * z
  {}

  lemma MulMono(x: int, y: int, z: int)
    requires x <= y && 0 <= z
    ensures x * z <= y * z
  {}

  lemma MulStrict(x: int, y: int, z: int)
    requires x < y && 0 < z
    ensures x * z < y * z
  {}

  /** A product of factors below their bounds is below the product of the bounds. */
  lemma MulBound(x: int, xb: int, y: int, yb: int)
    requires 0 <= x <= xb && 0 <= y <= yb
    ensures 0 <= x * y <= xb * yb
  {
    MulMono(x, xb, y);
    MulMono(y, yb, xb);
  }

  /** The quotient and remainder of a division are determined by their defining equation. */
  lemma DivModUnique(x: int, d: int, q: int, r: int)
    requires 0 < d && x == q * d + r && 0 <= r < d
    ensures x / d == q && x % d == r
  {
    var q', r' := x / d, x % d;
    assert x == d * q' + r';
    assert d * (q' - q) == r - r';
    if q' >= q + 1 {
      MulMono(1, q' - q, d);
    } else if q' <= q - 1 {
      MulMono(q' - q, -1, d);
    }
  }

  lemma DivMod(x: int, d: int)
    requires 0 < d
    ensures x == (x / d) * d + x % d && 0 <= x % d < d
    ensures 0 <= x ==> 0 <= x / d
  {}

  lemma DivBound(x: int, d: int, lo: int, hi: int)
    requires 0 < d && lo * d <= x < hi * d
    ensures lo <= x / d < hi
  {
    DivMod(x, d);
    if x / d < lo {
      MulMono(x / d + 1, lo, d);
    }
    if x / d >= hi {
      MulMono(hi, x / d, d);
    }
  }

  lemma {:induction false} PowPositive(b: int, e: nat)
    requires 0 < b
    ensures 0 < Pow(b, e)
  {
    if e > 0 {
      PowPositive(b, e - 1);
      MulStrict(0, b, Pow(b, e - 1));
    }
  }

  lemma {:induction false} PowAdd(b: int, e: nat, f: nat)
    ensures Pow(b, e + f) == Pow(b, e) * Pow(b, f)
  {
    if e > 0 {
      PowAdd(b, e - 1, f);
      MulAssoc(b, Pow(b, e - 1), Pow(b, f));
    }
  }

  lemma {:induction false} PowPow(b: int, e: nat, f: nat)
    ensures 0 <= e * f && Pow(b, e * f) == Pow(Pow(b, e), f)
  {
    if f > 0 {
      PowPow(b, e, f - 1);
      assert e * f == e + e * (f - 1);
      PowAdd(b, e, e * (f - 1));
    }
  }

  lemma {:induction false} PowMono(b: int, e: nat, f: nat)
    requires 0 < b && e <= f
    ensures Pow(b, e) <= Pow(b, f)
  {
    PowAdd(b, e, f - e);
    PowPositive(b, f - e);
    PowPositive(b, e);
    MulMono(1, Pow(b, f - e), Pow(b, e));
  }

  lemma {:induction false} PowOne(e: nat)
    ensures Pow(1, e) == 1
  {
    if e > 0 {
      PowOne(e - 1);
    }
  }

  lemma Pow2Values()
    ensures Pow(2, 8) == 0x100 && Pow(2, 16) == 0x1_0000 && Pow(2, 32) == 0x1_0000_0000
  {
    assert Pow(2, 8) == 0x100;
    PowAdd(2, 8, 8);
    PowAdd(2, 16, 16);
  }

  /** a is congruent to b modulo m. */
  ghost predicate Cong(a: int, b: int, m: int)
    requires 0 < m
  {
    (a - b) % m == 0
  }

  lemma CongIntro(a: int, b: int, m: int, k: int)
    requires 0 < m && a - b == k * m
    ensures Cong(a, b, m)
  {
    DivModUnique(a - b, m, k, 0);
  }

  lemma CongElim(a: int, b: int, m: int) returns (k: int)
    requires 0 < m && Cong(a, b, m)
    ensures a - b == k * m
  {
    DivMod(a - b, m);
    k := (a - b) / m;
  }

  lemma CongRefl(a: int, m: int)
    requires 0 < m
    ensures Cong(a, a, m)
  {
    CongIntro(a, a, m, 0);
  }

  lemma CongSym(a: int, b: int, m: int)
    requires 0 < m && Cong(a, b, m)
    ensures Cong(b, a, m)
  {
    var k := CongElim(a, b, m);
    CongIntro(b, a, m, -k);
  }

  lemma CongTrans(a: int, b: int, c: int, m: int)
    requires 0 < m && Cong(a, b, m) && Cong(b, c, m)
    ensures Cong(a, c, m)
  {
    var k := CongElim(a, b, m);
    var l := CongElim(b, c, m);
    assert (k + l) * m == k * m + l * m;
    CongIntro(a, c, m, k + l);
  }

  lemma CongAdd(a: int, b: int, c: int, d: int, m: int)
    requires 0 < m && Cong(a, b, m) && Cong(c, d, m)
    ensures Cong(a + c, b + d, m)
  {
    var k := CongElim(a, b, m);
    var l := CongElim(c, d, m);
    assert (k + l) * m == k * m + l * m;
    CongIntro(a + c, b + d, m, k + l);
  }

  lemma CongSub(a: int, b: int, c: int, d: int, m: int)
    requires 0 < m && Cong(a, b, m) && Cong(c, d, m)
    ensures Cong(a - c, b - d, m)
  {
    var k := CongElim(a, b, m);
    var l := CongElim(c, d, m);
    assert (k - l) * m == k * m - l * m;
    CongIntro(a - c, b - d, m, k - l);
  }

  lemma CongScale(a: int, b: int, c: int, m: int)
    requires 0 < m && Cong(a, b, m)
    ensures Cong(a * c, b * c, m) && Cong(c * a, c * b, m)
  {
    var k := CongElim(a, b, m);
    calc {
      a * c - b * c;
      (a - b) * c;
      (k * m) * c;
      (k * c) * m;
    }
    CongIntro(a * c, b * c, m, k * c);
    assert c * a == a * c && c * b == b * c;
  }

  lemma CongMul(a: int, b: int, c: int, d: int, m: int)
    requires 0 < m && Cong(a, b, m) && Cong(c, d, m)
    ensures Cong(a * c, b * d, m)
  {
    CongScale(a, b, c, m);
    CongScale(c, d, b, m);
    CongTrans(a * c, b * c, b * d, m);
  }

  lemma {:induction false} CongPow(a: int, b: int, e: nat, m: int)
    requires 0 < m && Cong(a, b, m)
    ensures Cong(Pow(a, e), Pow(b, e), m)
  {
    if e == 0 {
      CongRefl(1, m);
    } else {
      CongPow(a, b, e - 1, m);
      CongMul(a, b, Pow(a, e - 1), Pow(b, e - 1), m);
    }
  }

  lemma CongMod(a: int, m: int)
    requires 0 < m
    ensures Cong(a, a % m, m) && Cong(a % m, a, m)
  {
    DivMod(a, m);
    CongIntro(a, a % m, m, a / m);
    CongSym(a, a % m, m);
  }

  /** Congruent numbers have the same remainder. */
  lemma CongSameMod(a: int, b: int, m: int)
    requires 0 < m && Cong(a, b, m)
    ensures a % m == b % m
  {
    var k := CongElim(a, b, m);
    DivMod(b, m);
    assert a == (b / m + k) * m + b % m;
    DivModUnique(a, m, b / m + k, b % m);
  }

  lemma SameModCong(a: int, b: int, m: int)
    requires 0 < m && a % m == b % m
    ensures Cong(a, b, m)
  {
    DivMod(a, m);
    DivMod(b, m);
    assert a - b == (a / m - b / m) * m;
    CongIntro(a, b, m, a / m - b / m);
  }
}
