/** Primes, inverses modulo a prime, and Fermat's little theorem. */
module NumberTheory {
  import opened Arith

  ghost predicate Prime(p: int) {
    1 < p && forall d | 1 < d < p :: p % d != 0
  }

  // ---------- inverses and Euclid's lemma ----------

  /** Every residue other than zero has an inverse modulo a prime: division with remainder, repeated. */
  lemma {:induction false} Inverse(a: int, p: int) returns (b: int)
    requires Prime(p) && 0 < a < p
    ensures Cong(a * b, 1, p)
    decreases a
  {
    if a == 1 {
      b := 1;
      CongRefl(1, p);
    } else {
      var q, r := p / a, p % a;
      DivMod(p, a);
      var c := Inverse(r, p);
      b := -(q * c);
      InverseStep(a, p, q, r, c);
    }
  }

  lemma InverseStep(a: int, p: int, q: int, r: int, c: int)
    requires 0 < p && p == q * a + r && Cong(r * c, 1, p)
    ensures Cong(a * -(q * c), 1, p)
  {
    assert a * -(q * c) - r * c == -c * p by {
      assert c * (q * a) == a * (q * c) by {
        MulAssoc(c, q, a);
        assert c * q == q * c && (q * c) * a == a * (q * c);
      }
      assert c * p == c * (q * a) + c * r;
      assert c * r == r * c;
    }
    CongIntro(a * -(q * c), r * c, p, -c);
    CongTrans(a * -(q * c), r * c, 1, p);
  }

  /** What is not a multiple of a prime can be cancelled. */
  lemma Cancel(a: int, x: int, y: int, p: int)
    requires Prime(p) && a % p != 0 && Cong(a * x, a * y, p)
    ensures Cong(x, y, p)
  {
    DivMod(a, p);
    var b := Inverse(a % p, p);
    CongMod(a, p);
    CongScale(a, a % p, b, p);
    CongTrans(a * b, a % p * b, 1, p);
    CongScale(a * x, a * y, b, p);
    CancelOne(a, b, x, p);
    CancelOne(a, b, y, p);
    CongSym(a * x * b, x, p);
    CongTrans(x, a * x * b, a * y * b, p);
    CongTrans(x, a * y * b, y, p);
  }

  lemma CancelOne(a: int, b: int, x: int, p: int)
    requires 0 < p && Cong(a * b, 1, p)
    ensures Cong(a * x * b, x, p)
  {
    CongScale(a * b, 1, x, p);
    assert a * x * b == (a * b) * x by {
      MulAssoc(a, x, b);
      MulAssoc(a, b, x);
      assert x * b == b * x;
    }
  }

  /** A prime that divides a product divides a factor. */
  lemma EuclidsLemma(a: int, b: int, p: int)
    requires Prime(p) && Cong(a * b, 0, p)
    ensures a % p == 0 || Cong(b, 0, p)
  {
    if a % p != 0 {
      assert a * 0 == 0;
      Cancel(a, b, 0, p);
    }
  }

  /** The primes are the numbers above 1 that divide no product of smaller positive factors. */
  lemma PrimeIff(p: int)
    ensures Prime(p) <==> 1 < p && forall a, b | 0 < a < p && 0 < b < p :: !Cong(a * b, 0, p)
  {
    if Prime(p) {
      forall a, b | 0 < a < p && 0 < b < p
        ensures !Cong(a * b, 0, p)
      {
        if Cong(a * b, 0, p) {
          DivModUnique(a, p, 0, a);
          EuclidsLemma(a, b, p);
          DivModUnique(b, p, 0, b);
        }
      }
    } else if 1 < p {
      var d :| 1 < d < p && p % d == 0;
      DivMod(p, d);
      var q := p / d;
      if q <= 0 {
        MulMono(q, 0, d);
      } else if q >= p {
        MulStrict(1, d, q);
      }
      CongIntro(d * q, 0, p, 1);
    }
  }

  // ---------- binomial coefficients ----------

  /** Pascal's triangle. */
  function Choose(n: nat, k: nat): nat {
    if k == 0 then 1 else if n == 0 then 0 else Choose(n - 1, k - 1) + Choose(n - 1, k)
  }

  lemma {:induction false} ChooseEnds(n: nat)
    ensures Choose(n, n) == 1 && Choose(n, n + 1) == 0
  {
    if n > 0 {
      ChooseEnds(n - 1);
      ChooseBeyond(n - 1, n + 1);
    }
  }

  lemma {:induction false} ChooseBeyond(n: nat, k: nat)
    requires n < k
    ensures Choose(n, k) == 0
  {
    if n > 0 {
      ChooseBeyond(n - 1, k - 1);
      ChooseBeyond(n - 1, k);
    }
  }

  /** k choose-(n, k) is n choose-(n - 1, k - 1). */
  lemma {:induction false} Absorption(n: nat, k: nat)
    requires 1 <= n && 1 <= k
    ensures k * Choose(n, k) == n * Choose(n - 1, k - 1)
  {
    if n == 1 {
      if k > 1 {
        ChooseBeyond(0, k - 1);
        ChooseBeyond(0, k);
      }
    } else {
      Absorption(n - 1, k);
      if k > 1 {
        Absorption(n - 1, k - 1);
        AbsorptionStep(n, k, Choose(n - 1, k - 1), Choose(n - 1, k), Choose(n - 2, k - 2), Choose(n - 2, k - 1));
      } else {
        assert Choose(n, 1) == 1 + Choose(n - 1, 1);
      }
    }
  }

  lemma AbsorptionStep(n: int, k: int, a: int, b: int, c: int, d: int)
    requires (k - 1) * a == (n - 1) * c && k * b == (n - 1) * d && a == c + d
    ensures k * (a + b) == n * a
  {
    assert k * (a + b) == (k - 1) * a + a + k * b;
    assert (n - 1) * c + (n - 1) * d == (n - 1) * a;
    assert n * a == (n - 1) * a + a;
  }

  /** A prime divides the inner entries of its row. */
  lemma RowOfPrime(p: int, k: nat)
    requires Prime(p) && 0 < k < p
    ensures Cong(Choose(p, k), 0, p)
  {
    Absorption(p, k);
    CongIntro(k * Choose(p, k), 0, p, Choose(p - 1, k - 1));
    DivModUnique(k, p, 0, k);
    EuclidsLemma(k, Choose(p, k), p);
  }

  // ---------- the binomial theorem ----------

  /** The first m terms of the expansion of (1 + a) to the n. */
  function Expansion(a: int, n: nat, m: nat): int {
    if m == 0 then 0 else Expansion(a, n, m - 1) + Choose(n, m - 1) * Pow(a, m - 1)
  }

  lemma {:induction false} ExpansionRow(a: int, n: nat, m: nat)
    requires 1 <= m
    ensures Expansion(a, n + 1, m) == Expansion(a, n, m) + a * Expansion(a, n, m - 1)
  {
    if m == 1 {
      assert Expansion(a, n + 1, 1) == Expansion(a, n + 1, 0) + Choose(n + 1, 0) * Pow(a, 0);
      assert Expansion(a, n, 1) == Expansion(a, n, 0) + Choose(n, 0) * Pow(a, 0);
    } else {
      ExpansionRow(a, n, m - 1);
      ExpansionStep(a, Expansion(a, n, m - 2), Choose(n, m - 2), Choose(n, m - 1), Pow(a, m - 2));
    }
  }

  lemma ExpansionStep(a: int, e: int, c: int, d: int, w: int)
    ensures (c + d) * (a * w) + a * e == d * (a * w) + a * (e + c * w)
  {
    assert (c + d) * (a * w) == c * (a * w) + d * (a * w);
    assert a * (e + c * w) == a * e + a * (c * w);
    assert c * (a * w) == a * (c * w);
  }

  lemma {:induction false} BinomialTheorem(a: int, n: nat)
    ensures Pow(1 + a, n) == Expansion(a, n, n + 1)
  {
    hide Choose, Expansion, Pow;
    PowStep(1 + a, n);
    if n == 0 {
      FirstTerm(a, 0);
    } else {
      BinomialTheorem(a, n - 1);
      ExpansionRow(a, n - 1, n + 1);
      ChooseEnds(n - 1);
      LastTerm(a, n - 1, n);
      PowStep(1 + a, n - 1);
      var e := Expansion(a, n - 1, n);
      assert (1 + a) * e == e + a * e;
    }
  }

  lemma PowStep(b: int, e: nat)
    ensures Pow(b, e + 1) == b * Pow(b, e) && Pow(b, 0) == 1
  {
  }

  lemma FirstTerm(a: int, n: nat)
    ensures Expansion(a, n, 1) == 1
  {
    assert Expansion(a, n, 1) == Expansion(a, n, 0) + Choose(n, 0) * Pow(a, 0);
  }

  lemma NextTerm(a: int, n: nat, m: nat)
    ensures Expansion(a, n, m + 1) == Expansion(a, n, m) + Choose(n, m) * Pow(a, m)
  {
  }

  lemma LastTerm(a: int, n: nat, m: nat)
    requires Choose(n, m) == 0
    ensures Expansion(a, n, m + 1) == Expansion(a, n, m)
  {
  }

  /** Modulo p only the first and the last term of the row of p remain. */
  lemma {:induction false} ExpansionModPrime(a: int, p: int, m: nat)
    requires Prime(p) && 1 <= m <= p
    ensures Cong(Expansion(a, p, m), 1, p)
  {
    if m == 1 {
      assert Expansion(a, p, 1) == Expansion(a, p, 0) + Choose(p, 0) * Pow(a, 0);
      CongRefl(1, p);
    } else {
      ExpansionModPrime(a, p, m - 1);
      RowOfPrime(p, m - 1);
      CongScale(Choose(p, m - 1), 0, Pow(a, m - 1), p);
      CongAdd(Expansion(a, p, m - 1), 1, Choose(p, m - 1) * Pow(a, m - 1), 0, p);
    }
  }

  lemma PowOfSuccessor(a: int, p: int)
    requires Prime(p)
    ensures Cong(Pow(1 + a, p), 1 + Pow(a, p), p)
  {
    hide Pow, Cong, Expansion, Choose;
    BinomialTheorem(a, p);
    ExpansionModPrime(a, p, p);
    ChooseEnds(p);
    NextTerm(a, p, p);
    CongRefl(Pow(a, p), p);
    CongAdd(Expansion(a, p, p), 1, Pow(a, p), Pow(a, p), p);
  }

  // ---------- Fermat's little theorem ----------

  lemma {:induction false} Fermat(a: nat, p: int)
    requires Prime(p)
    ensures Cong(Pow(a, p), a, p)
  {
    if a == 0 {
      assert Pow(0, p) == 0 * Pow(0, p - 1);
      CongRefl(0, p);
    } else {
      Fermat(a - 1, p);
      PowOfSuccessor(a - 1, p);
      CongRefl(1, p);
      CongAdd(1, 1, Pow(a - 1, p), a - 1, p);
      CongTrans(Pow(a, p), 1 + Pow(a - 1, p), a, p);
    }
  }

  /** For what p does not divide, the power p - 1 is 1. */
  lemma FermatInverse(a: nat, p: int)
    requires Prime(p) && a % p != 0
    ensures Cong(Pow(a, p - 1), 1, p)
  {
    Fermat(a, p);
    assert Pow(a, p) == a * Pow(a, p - 1) && a == a * 1;
    Cancel(a, Pow(a, p - 1), 1, p);
  }

  /** Hence so is the power of any multiple of p - 1. */
  lemma FermatMultiple(a: nat, p: int, k: nat)
    requires Prime(p) && a % p != 0
    ensures 0 <= (p - 1) * k && Cong(Pow(a, (p - 1) * k), 1, p)
  {
    FermatInverse(a, p);
    PowPow(a, p - 1, k);
    CongPow(Pow(a, p - 1), 1, k, p);
    PowOne(k);
  }
}
