/** Which roots the shipped transforms evaluate at: the odd powers of 426, in bit-reversed order. */
module NttRoots {
  import opened Arith
  import opened BitReversal
  import opened Reduce
  import opened ZetaTable
  import opened Ntt
  import opened NttCode

  /** MONT can be cancelled. */
  lemma CancelMont(x: int, y: int)
    requires Eq(x * MONT, y * MONT)
    ensures Eq(x, y)
  {
    CongScale(x * MONT, y * MONT, MONT_INVERSE, Q);
    MontPair();
    CongScale(MONT * MONT_INVERSE, 1, x, Q);
    CongScale(MONT * MONT_INVERSE, 1, y, Q);
    MulAssoc(x, MONT, MONT_INVERSE);
    MulAssoc(y, MONT, MONT_INVERSE);
    CongSym((x * MONT) * MONT_INVERSE, x, Q);
    CongTrans(x, (x * MONT) * MONT_INVERSE, (y * MONT) * MONT_INVERSE, Q);
    CongTrans(x, (y * MONT) * MONT_INVERSE, y, Q);
  }

  lemma MontPair()
    ensures Eq(MONT * MONT_INVERSE, 1)
  {
  }

  /** From two entries that are powers times MONT to one whose product with MONT is theirs. */
  lemma PowersMultiply(zeta: int, x: int, y: int, e: nat, f: nat)
    requires Eq(zeta * MONT, x * y) && Eq(x, MONT * Pow(ROOT, e)) && Eq(y, MONT * Pow(ROOT, f))
    ensures Eq(zeta, MONT * Pow(ROOT, e + f))
  {
    hide Pow, Cong;
    var p, q := Pow(ROOT, e), Pow(ROOT, f);
    PowAdd(ROOT, e, f);
    CongMul(x, MONT * p, y, MONT * q, Q);
    CongTrans(zeta * MONT, x * y, (MONT * p) * (MONT * q), Q);
    assert (MONT * p) * (MONT * q) == (MONT * (p * q)) * MONT by {
      MulAssoc(MONT * p, MONT, q);
      MulAssoc(MONT, p, q);
      MulAssoc(MONT * p, q, MONT);
    }
    CancelMont(zeta, MONT * Pow(ROOT, e + f));
  }

  /** Entry k of the table is 426 to the power of k bit-reversed, in Montgomery form. */
  lemma {:induction false} ZetaPower(k: nat)
    requires 1 <= k < 256
    ensures Eq(Zeta(k), MONT * Pow(ROOT, Brv8(k)))
    decreases if k == Base(k) then 0 else 1, if k == Base(k) then 256 - k else k
  {
    hide Brv8, Zeta, Pow, Cong;
    ShippedFact(k);
    var b := Base(k);
    if k == 128 {
      Brv8Power(k);
      FirstPower();
      CongReads(Zeta(128), ROOT * MONT);
    } else if k == b {
      PowerBelow(k);
      Brv8Power(k);
      Brv8Power(2 * k);
      ZetaPower(2 * k);
      ShippedFact(2 * k);
      CongReads(Zeta(2 * k) * Zeta(2 * k), MONT * Zeta(k));
      CongSym(Zeta(2 * k) * Zeta(2 * k), MONT * Zeta(k), Q);
      PowersMultiply(Zeta(k), Zeta(2 * k), Zeta(2 * k), Brv8(2 * k), Brv8(2 * k));
    } else {
      PowerBelow(b);
      ZetaPower(b);
      ZetaPower(k - b);
      CongReads(Zeta(k) * MONT, Zeta(b) * Zeta(k - b));
      Brv8Top(b, k - b);
      PowersMultiply(Zeta(k), Zeta(b), Zeta(k - b), Brv8(b), Brv8(k - b));
    }
  }

  lemma FirstPower()
    ensures Pow(ROOT, 1) == ROOT
  {
    assert Pow(ROOT, 1) == ROOT * Pow(ROOT, 0);
  }

  lemma CongReads(x: int, y: int)
    requires (x - y) % Q == 0
    ensures Eq(x, y)
  {
  }

  lemma PowerBelow(b: nat)
    requires 1 <= b < 256 && Base(b) == b
    ensures PowerOfTwo(b)
    ensures b < 128 ==> Base(2 * b) == 2 * b
  {
  }

  lemma SquaredPower(e: nat, v: int, w: int)
    requires Eq(Pow(ROOT, e), v) && (v * v - w) % Q == 0
    ensures Eq(Pow(ROOT, 2 * e), w)
  {
    hide Pow, Cong;
    PowAdd(ROOT, e, e);
    CongMul(Pow(ROOT, e), v, Pow(ROOT, e), v, Q);
    CongReads(v * v, w);
    CongTrans(Pow(ROOT, 2 * e), v * v, w, Q);
  }

  /** 426 is a primitive 512th root of unity. */
  lemma HalfTurn()
    ensures Eq(Pow(ROOT, 256), -1)
  {
    hide Pow, Cong;
    FirstPower();
    CongRefl(ROOT, Q);
    SquaredPower(1, 426, 52450);
    SquaredPower(2, 52450, 39154);
    SquaredPower(4, 39154, 13297);
    SquaredPower(8, 13297, 44589);
    SquaredPower(16, 44589, 17287);
    SquaredPower(32, 17287, 16153);
    SquaredPower(64, 16153, 28837);
    SquaredPower(128, 28837, -1);
  }

  /** The root that entry i belongs to. */
  lemma RootIs(i: nat)
    requires i < 256
    ensures Haetae().Valid() && Eq(Haetae().Root(i), Pow(ROOT, 2 * Brv8(i) + 1))
  {
    hide Brv8, Zeta, Pow, Cong, Transform.Valid;
    HaetaeValid();
    var k := 128 + i / 2;
    var t, e := Haetae(), Brv8(k);
    assert N + i == 2 * k + i % 2 && t.zetas[k] == Zeta(k);
    t.SplitFactor(k);
    ZetaPower(k);
    CongScale(Zeta(k), MONT * Pow(ROOT, e), MONT_INVERSE, Q);
    MontPair();
    CongScale(MONT * MONT_INVERSE, 1, Pow(ROOT, e), Q);
    assert (MONT * Pow(ROOT, e)) * MONT_INVERSE == (MONT * MONT_INVERSE) * Pow(ROOT, e);
    CongTrans(t.W(2 * k), (MONT * MONT_INVERSE) * Pow(ROOT, e), Pow(ROOT, e), Q);
    Brv8Halved(i);
    if i % 2 == 1 {
      HalfTurn();
      PowAdd(ROOT, e, 256);
      CongScale(Pow(ROOT, 256), -1, Pow(ROOT, e), Q);
      CongScale(t.W(2 * k), Pow(ROOT, e), -1, Q);
      CongSym(Pow(ROOT, e + 256), -Pow(ROOT, e), Q);
      CongTrans(t.W(2 * k + 1), -Pow(ROOT, e), Pow(ROOT, e + 256), Q);
    }
  }

  lemma {:induction false} EvalCongruent(a: seq<int>, r: int, r': int)
    requires Eq(r, r')
    ensures Eq(Eval(a, r), Eval(a, r'))
  {
    if a == [] {
      CongRefl(0, Q);
    } else {
      EvalCongruent(a[1..], r, r');
      CongMul(r, r', Eval(a[1..], r), Eval(a[1..], r'), Q);
      CongRefl(a[0], Q);
      CongAdd(a[0], a[0], r * Eval(a[1..], r), r' * Eval(a[1..], r'), Q);
    }
  }

  // crypto_haetae_ntt with its table: entry i is the value at 426 to the power 2 brv8(i) + 1.
  method ShippedForward(a: array<int>)
    requires a.Length == N && Bounded(a[..], Q - 1)
    modifies a
    ensures forall i: nat | i < N :: Eq(a[i], Eval(old(a[..]), Pow(ROOT, 2 * Brv8(i) + 1)))
    ensures Bounded(a[..], 9 * (Q - 1))
  {
    hide Brv8, Pow, Cong, Eval;
    HaetaeValid();
    ghost var v := a[..];
    ForwardNtt(a, Haetae());
    forall i: nat | i < N
      ensures Eq(a[i], Eval(v, Pow(ROOT, 2 * Brv8(i) + 1)))
    {
      RootIs(i);
      var r, p := Haetae().Root(i), Pow(ROOT, 2 * Brv8(i) + 1);
      EvalCongruent(v, r, p);
      CongTrans(a[i], Eval(v, r), Eval(v, p), Q);
    }
  }

  // crypto_haetae_invntt_tomont with its table.
  method ShippedInverse(a: array<int>)
    requires a.Length == N && Bounded(a[..], Q - 1)
    modifies a
    ensures forall i: nat | i < N :: Eq(Eval(a[..], Pow(ROOT, 2 * Brv8(i) + 1)), MONT * old(a[i]))
    ensures Bounded(a[..], Q - 1)
  {
    hide Brv8, Pow, Cong, Eval;
    HaetaeValid();
    ghost var v := a[..];
    InverseNtt(a, Haetae());
    forall i: nat | i < N
      ensures Eq(Eval(a[..], Pow(ROOT, 2 * Brv8(i) + 1)), MONT * v[i])
    {
      RootIs(i);
      var r, p := Haetae().Root(i), Pow(ROOT, 2 * Brv8(i) + 1);
      CongSym(r, p, Q);
      EvalCongruent(a[..], p, r);
      CongTrans(Eval(a[..], p), Eval(a[..], r), MONT * v[i], Q);
    }
  }
}
