/** RSA: the private exponent by the extended Euclidean algorithm, and the round trip. */
module Rsa {
  import opened Arith
  import opened NumberTheory
  import opened Limbs
  import opened LongDivision
  import opened Montgomery
  import opened ModExp
  import ModExpSecret

  const E := 65537 // RSA_DEFAULT_E

  datatype Result<T> = Success(value: T) | MessageTooLarge | InvalidArgument | ArithmeticError

  // ---------- greatest common divisors ----------

  function Gcd(a: nat, b: nat): nat
    decreases b
  {
    if b == 0 then a else Gcd(b, a % b)
  }

  ghost predicate Divides(d: int, x: int)
    requires 0 < d
  {
    x % d == 0
  }

  /** Gcd is a common divisor, and every common divisor divides it. */
  lemma {:induction false} GcdIsGreatest(a: nat, b: nat)
    requires 0 < a || 0 < b
    ensures 0 < Gcd(a, b) && Divides(Gcd(a, b), a) && Divides(Gcd(a, b), b)
    ensures forall d | 0 < d && Divides(d, a) && Divides(d, b) :: Divides(d, Gcd(a, b))
    decreases b
  {
    if b == 0 {
      DivModUnique(a, a, 1, 0);
      DivModUnique(0, a, 0, 0);
    } else {
      GcdIsGreatest(b, a % b);
      RemainderDivisible(a, b, Gcd(b, a % b));
      forall d | 0 < d && Divides(d, a) && Divides(d, b)
        ensures Divides(d, Gcd(a, b))
      {
        DivisibleRemainder(a, b, d);
      }
    }
  }

  lemma RemainderDivisible(a: nat, b: nat, d: nat)
    requires 0 < b && 0 < d && Divides(d, b) && Divides(d, a % b)
    ensures Divides(d, a)
  {
    DivMod(a, b);
    SameModCong(b, 0, d);
    SameModCong(a % b, 0, d);
    CongScale(b, 0, a / b, d);
    CongAdd((a / b) * b, 0, a % b, 0, d);
    CongSameMod(a, 0, d);
  }

  lemma DivisibleRemainder(a: nat, b: nat, d: int)
    requires 0 < b && 0 < d && Divides(d, a) && Divides(d, b)
    ensures Divides(d, a % b)
  {
    DivMod(a, b);
    SameModCong(b, 0, d);
    SameModCong(a, 0, d);
    CongScale(b, 0, a / b, d);
    CongSub(a, 0, (a / b) * b, 0, d);
    CongSameMod(a % b, 0, d);
  }

  // ---------- the Euclid loop ----------

  function Abs(x: int): nat {
    if x < 0 then -x else x
  }

  /** What a round keeps: two congruences, the remaining remainders, and the size of the coefficients. */
  ghost predicate Euclid(a: nat, m: nat, t: int, t': int, r: int, r': int) {
    && 1 < m && 0 < r && 0 <= r' && Gcd(r, r') == Gcd(m, a)
    && Cong(t * a, r, m) && Cong(t' * a, r', m)
    && Abs(t) * r' + Abs(t') * r == m
    && (t <= 0 <= t' || t' <= 0 <= t) && Abs(t) <= m && Abs(t') <= m
  }

  lemma EuclidStart(a: nat, m: nat)
    requires 1 < m
    ensures Euclid(a, m, 0, 1, m, a)
  {
    CongIntro(0 * a, m, m, -1);
    CongRefl(a, m);
  }

  lemma EuclidStep(a: nat, m: nat, t: int, t': int, r: int, r': int)
    requires Euclid(a, m, t, t', r, r') && 0 < r'
    ensures var q := r / r';
      Euclid(a, m, t', t - q * t', r', r - q * r') && Abs(q * t') <= m && 0 <= r - q * r' < r'
  {
    hide Gcd, Cong;
    var q := r / r';
    var t'', r'' := t - q * t', r - q * r';
    DivMod(r, r');
    GcdStep(r, r');
    CongruenceStep(a, m, t, t', r, r', q);
    CoefficientStep(t, t', r, r', q, m);
  }

  lemma GcdStep(r: nat, r': nat)
    requires 0 < r'
    ensures Gcd(r', r % r') == Gcd(r, r')
  {
  }

  lemma CongruenceStep(a: int, m: int, t: int, t': int, r: int, r': int, q: int)
    requires 0 < m && Cong(t * a, r, m) && Cong(t' * a, r', m)
    ensures Cong((t - q * t') * a, r - q * r', m)
  {
    CongScale(t' * a, r', q, m);
    CongSub(t * a, r, q * (t' * a), q * r', m);
    assert (t - q * t') * a == t * a - q * (t' * a) by {
      assert (t - q * t') * a == t * a - (q * t') * a;
      MulAssoc(q, t', a);
    }
  }

  /** Subtracting a multiple of a coefficient of the opposite sign adds the sizes. */
  lemma OppositeSigns(t: int, t': int, q: int)
    requires 0 <= q && (t <= 0 <= t' || t' <= 0 <= t)
    ensures var t'' := t - q * t';
      Abs(t'') == Abs(t) + q * Abs(t') && Abs(q * t') == q * Abs(t') && (t' <= 0 <= t'' || t'' <= 0 <= t')
  {
    MulMono(0, q, Abs(t'));
    if t' < 0 {
      assert q * t' == -(q * -t');
    }
  }

  /** So the sizes stay within the modulus. */
  lemma CoefficientStep(t: int, t': int, r: int, r': int, q: int, m: int)
    requires 0 < r' && 0 <= q && r - q * r' >= 0 && Abs(t) * r' + Abs(t') * r == m
    requires t <= 0 <= t' || t' <= 0 <= t
    ensures var t'' := t - q * t'; var r'' := r - q * r';
      && Abs(t') * r'' + Abs(t'') * r' == m && (t' <= 0 <= t'' || t'' <= 0 <= t') && Abs(t'') <= m && Abs(q * t') <= m
  {
    OppositeSigns(t, t', q);
    SizeStep(Abs(t), Abs(t'), r, r', r - q * r', q, m);
  }

  lemma SizeStep(u: nat, u': nat, r: int, r': int, r'': int, q: int, m: int)
    requires 0 < r' && 0 <= q && r == r'' + q * r' && 0 <= r'' && u * r' + u' * r == m
    ensures u' * r'' + (u + q * u') * r' == m && 0 <= q * u' && u + q * u' <= m
  {
    assert u' * r == u' * r'' + u' * (q * r');
    MulAssoc(u', q, r');
    assert u' * q == q * u';
    assert (u + q * u') * r' == u * r' + (q * u') * r';
    MulMono(0, u', r'');
    MulMono(0, q, u');
    MulMono(1, r', u + q * u');
  }

  /** With remainder 1 the coefficient, brought into range, is the inverse. */
  lemma EuclidEnd(a: nat, m: nat, t: int, t': int, r: int)
    requires Euclid(a, m, t, t', r, 0)
    ensures r == Gcd(m, a)
    ensures r == 1 ==> var x := if t < 0 then t + m else t; 0 < x < m && a * x % m == 1
  {
    hide Cong;
    assert Gcd(r, 0) == r;
    if r == 1 {
      var x := if t < 0 then t + m else t;
      CongIntro(x * a, t * a, m, if t < 0 then a else 0);
      CongTrans(x * a, t * a, 1, m);
      assert x * a == a * x;
      CongSameMod(a * x, 1, m);
      DivModUnique(1, m, 0, 1);
      NotZeroModulus(a, m, x);
    }
  }

  lemma NotZeroModulus(a: nat, m: nat, x: int)
    requires 1 < m && 0 <= x <= m && a * x % m == 1
    ensures 0 < x < m
  {
    if x == m {
      DivModUnique(a * m, m, a, 0);
    }
    if x == 0 {
      DivModUnique(0, m, 0, 0);
    }
  }

  // rsa_inverse_u32: the inverse modulo m, or 0 when there is none. Every product and difference stays within m.
  method InverseU32(a: nat, m: nat) returns (inverse: nat)
    requires 1 < m < 0x1_0000_0000 && a < 0x1_0000_0000
    ensures inverse != 0 <==> Gcd(m, a) == 1
    ensures inverse != 0 ==> 0 < inverse < m && a * inverse % m == 1
  {
    hide Gcd, Euclid, Cong, Abs;
    var t, newT := 0, 1;
    var r, newR: int := m, a;
    EuclidStart(a, m);
    while newR != 0
      invariant 0 <= newR && 0 < r && Euclid(a, m, t, newT, r, newR)
      decreases newR
    {
      EuclidStep(a, m, t, newT, r, newR);
      var q := r / newR;
      var tt := t - q * newT;
      var rr := r - q * newR;
      t, newT, r, newR := newT, tt, newR, rr;
    }
    EuclidEnd(a, m, t, newT, r);
    if r != 1 {
      return 0;
    }
    if t < 0 {
      t := t + m;
    }
    return t;
  }

  // ---------- 65537 is prime ----------

  predicate NoDivisor(lo: nat, hi: nat)
    requires 0 < lo
    decreases hi - lo
  {
    lo >= hi || (E % lo != 0 && NoDivisor(lo + 1, hi))
  }

  lemma {:induction false} NoDivisorAt(lo: nat, hi: nat, d: nat)
    requires 0 < lo <= d < hi && NoDivisor(lo, hi)
    ensures E % d != 0
    decreases hi - lo
  {
    if lo < d {
      NoDivisorAt(lo + 1, hi, d);
    }
  }

  lemma NoDivisor2() ensures NoDivisor(2, 16) {}
  lemma NoDivisor16() ensures NoDivisor(16, 32) {}
  lemma NoDivisor32() ensures NoDivisor(32, 48) {}
  lemma NoDivisor48() ensures NoDivisor(48, 64) {}
  lemma NoDivisor64() ensures NoDivisor(64, 80) {}
  lemma NoDivisor80() ensures NoDivisor(80, 96) {}
  lemma NoDivisor96() ensures NoDivisor(96, 112) {}
  lemma NoDivisor112() ensures NoDivisor(112, 128) {}
  lemma NoDivisor128() ensures NoDivisor(128, 144) {}
  lemma NoDivisor144() ensures NoDivisor(144, 160) {}
  lemma NoDivisor160() ensures NoDivisor(160, 176) {}
  lemma NoDivisor176() ensures NoDivisor(176, 192) {}
  lemma NoDivisor192() ensures NoDivisor(192, 208) {}
  lemma NoDivisor208() ensures NoDivisor(208, 224) {}
  lemma NoDivisor224() ensures NoDivisor(224, 240) {}
  lemma NoDivisor240() ensures NoDivisor(240, 256) {}
  lemma NoDivisor256() ensures NoDivisor(256, 257) {}

  lemma SmallDivisor(d: nat)
    requires 2 <= d <= 256
    ensures E % d != 0
  {
    hide NoDivisor;
    if d < 16 { NoDivisor2(); NoDivisorAt(2, 16, d); }
    else if d < 32 { NoDivisor16(); NoDivisorAt(16, 32, d); }
    else if d < 48 { NoDivisor32(); NoDivisorAt(32, 48, d); }
    else if d < 64 { NoDivisor48(); NoDivisorAt(48, 64, d); }
    else if d < 80 { NoDivisor64(); NoDivisorAt(64, 80, d); }
    else if d < 96 { NoDivisor80(); NoDivisorAt(80, 96, d); }
    else if d < 112 { NoDivisor96(); NoDivisorAt(96, 112, d); }
    else if d < 128 { NoDivisor112(); NoDivisorAt(112, 128, d); }
    else if d < 144 { NoDivisor128(); NoDivisorAt(128, 144, d); }
    else if d < 160 { NoDivisor144(); NoDivisorAt(144, 160, d); }
    else if d < 176 { NoDivisor160(); NoDivisorAt(160, 176, d); }
    else if d < 192 { NoDivisor176(); NoDivisorAt(176, 192, d); }
    else if d < 208 { NoDivisor192(); NoDivisorAt(192, 208, d); }
    else if d < 224 { NoDivisor208(); NoDivisorAt(208, 224, d); }
    else if d < 240 { NoDivisor224(); NoDivisorAt(224, 240, d); }
    else if d < 256 { NoDivisor240(); NoDivisorAt(240, 256, d); }
    else { NoDivisor256(); NoDivisorAt(256, 257, d); }
  }

  lemma ExponentIsPrime()
    ensures Prime(E) && E == 65537
  {
    forall d | 1 < d < E
      ensures E % d != 0
    {
      if d <= 256 {
        SmallDivisor(d);
      } else {
        LargeDivisor(d);
      }
    }
  }

  lemma LargeDivisor(d: nat)
    requires 256 < d < E
    ensures E % d != 0
  {
    var e := E / d;
    DivMod(E, d);
    if e > 256 {
      MulMono(257, e, d);
    } else if e <= 1 {
      MulMono(e, 1, d);
    } else {
      SmallDivisor(e);
      if E % d == 0 {
        DivModUnique(E, e, d, 0);
      }
    }
  }

  lemma CoprimeToExponent(r: nat)
    requires 0 < r < E
    ensures Gcd(E, r) == 1
  {
    hide Gcd;
    ExponentIsPrime();
    GcdIsGreatest(E, r);
    var g := Gcd(E, r);
    if g > r {
      DivModUnique(r, g, 0, r);
    }
  }

  // ---------- the key and the round trip ----------

  // make_private_exponent: e * d is exactly 1 + k * phi.
  method MakePrivateExponent(phi: nat) returns (ok: bool, d: nat, ghost k: nat)
    ensures ok <==> phi % E != 0
    ensures ok ==> E * d == 1 + k * phi && k < E && (1 < phi ==> 0 < d < phi)
  {
    var r := phi % E;
    d, k := 0, 0;
    if r == 0 {
      return false, d, k;
    }
    CoprimeToExponent(r);
    var inverse := InverseU32(r, E);
    if inverse == 0 {
      return false, d, k;
    }
    var factor := E - inverse;
    if factor == E {
      factor := 0;
    }
    var numerator := phi * factor + 1;
    NumeratorDivisible(phi, r, inverse, numerator);
    var remainder := numerator % E;
    d := numerator / E;
    if remainder != 0 {
      return false, d, k;
    }
    k := factor;
    ExponentRange(phi, factor, d);
    return true, d, k;
  }

  lemma NumeratorDivisible(phi: nat, r: nat, inverse: nat, numerator: int)
    requires r == phi % E && r * inverse % E == 1 && numerator == phi * (E - inverse) + 1
    ensures numerator % E == 0
  {
    CongMod(phi, E);
    CongScale(phi, r, inverse, E);
    SameModCong(r * inverse, 1, E);
    CongTrans(phi * inverse, r * inverse, 1, E);
    CongIntro(phi * E, 0, E, phi);
    CongSub(phi * E, 0, phi * inverse, 1, E);
    CongRefl(1, E);
    CongAdd(phi * E - phi * inverse, -1, 1, 1, E);
    assert phi * (E - inverse) == phi * E - phi * inverse;
    CongSameMod(numerator, 0, E);
  }

  lemma ExponentRange(phi: nat, k: nat, d: int)
    requires k < E && E * d == phi * k + 1
    ensures 1 < phi ==> 0 < d < phi
  {
    MulMono(k, E - 1, phi);
    MulMono(0, k, phi);
  }

  /** Raising to an exponent that is 1 modulo p - 1 is the identity modulo p. */
  lemma PowerIsIdentity(m: nat, p: int, x: nat, j: nat)
    requires 1 < p && Prime(p) && x == 1 + (p - 1) * j
    ensures Cong(Pow(m, x), m, p)
  {
    hide Pow, Cong, Prime;
    MulMono(0, j, p - 1);
    PowStep(m, (p - 1) * j);
    if m % p == 0 {
      SameModCongZero(m, p);
      CongScale(m, 0, Pow(m, (p - 1) * j), p);
      CongSym(m, 0, p);
      CongTrans(Pow(m, x), 0, m, p);
    } else {
      FermatMultiple(m, p, j);
      CongScale(Pow(m, (p - 1) * j), 1, m, p);
    }
  }

  lemma SameModCongZero(m: nat, p: int)
    requires 0 < p && m % p == 0
    ensures Cong(m, 0, p)
  {
  }

  /** Two distinct primes that divide a number divide it together. */
  lemma BothPrimes(x: int, y: int, p: int, q: int)
    requires Prime(p) && Prime(q) && p != q && Cong(x, y, p) && Cong(x, y, q)
    ensures 0 < p * q && Cong(x, y, p * q)
  {
    var t := CongElim(x, y, p);
    var u := CongElim(x, y, q);
    DistinctPrimes(p, q);
    assert p * t == t * p;
    CongIntro(p * t, 0, q, u);
    EuclidsLemma(p, t, q);
    var s := CongElim(t, 0, q);
    assert x - y == s * (p * q) by {
      assert t * p == (s * q) * p;
      MulAssoc(s, q, p);
      assert q * p == p * q;
    }
    MulStrict(0, p, q);
    CongIntro(x, y, p * q, s);
  }

  lemma DistinctPrimes(p: int, q: int)
    requires Prime(p) && Prime(q) && p != q
    ensures p % q != 0
  {
    if q > p {
      DivModUnique(p, q, 0, p);
    }
  }

  /** The power with exponent 1 + k (p - 1)(q - 1) is the identity modulo p q. */
  lemma PowerModProduct(m: nat, p: int, q: int, x: nat, k: nat)
    requires Prime(p) && Prime(q) && p != q && x == 1 + k * ((p - 1) * (q - 1))
    ensures 0 < p * q && Cong(Pow(m, x), m, p * q)
  {
    MulMono(0, k, q - 1);
    MulMono(0, k, p - 1);
    assert k * ((p - 1) * (q - 1)) == (p - 1) * (k * (q - 1)) && k * ((p - 1) * (q - 1)) == (q - 1) * (k * (p - 1)) by {
      ThreeFactors(k, p - 1, q - 1);
    }
    PowerIsIdentity(m, p, x, k * (q - 1));
    PowerIsIdentity(m, q, x, k * (p - 1));
    BothPrimes(Pow(m, x), m, p, q);
  }

  lemma ThreeFactors(k: int, u: int, v: int)
    ensures k * (u * v) == u * (k * v) && k * (u * v) == v * (k * u)
  {
    MulAssoc(k, u, v);
    assert k * u == u * k;
    MulAssoc(u, k, v);
    assert (k * u) * v == v * (k * u);
  }

  // ---------- raw encryption and decryption ----------

  // crypto_rsa_encrypt_internal.
  method Encrypt(message: seq<word>, exponent: nat, modulus: seq<word>) returns (result: Result<seq<word>>)
    requires NoLeadingZero(message) && NoLeadingZero(modulus)
    ensures Value(message) >= Value(modulus) ==> result == MessageTooLarge
    ensures Value(message) < Value(modulus) ==>
      && result.Success? && NoLeadingZero(result.value) && Value(result.value) < Value(modulus)
      && Cong(Value(result.value), Pow(Value(message), exponent), Value(modulus))
  {
    hide Value, NoLeadingZero, Pow, Cong;
    var compared := Compare(message, modulus);
    if compared >= 0 {
      return MessageTooLarge;
    }
    EmptyIsZero(modulus);
    var ok, out := ModExpVartime(message, exponent, modulus);
    PowerOf(Value(message), exponent, Value(modulus));
    result := if ok then Success(out) else ArithmeticError;
  }

  // crypto_rsa_decrypt_internal, for the limbs of the private exponent's storage.
  method Decrypt(ciphertext: seq<word>, d: seq<word>, modulus: seq<word>) returns (result: Result<seq<word>>)
    requires NoLeadingZero(ciphertext) && NoLeadingZero(modulus)
    ensures Value(ciphertext) >= Value(modulus) ==> result == InvalidArgument
    ensures Value(ciphertext) < Value(modulus) && (Value(modulus) % 2 == 0 || |d| < |modulus|) ==> result == ArithmeticError
    ensures Value(ciphertext) < Value(modulus) && Value(modulus) % 2 == 1 && |modulus| <= |d| ==>
      && result.Success? && NoLeadingZero(result.value) && Value(result.value) < Value(modulus)
      && Cong(Value(result.value), Pow(Value(ciphertext), Value(d[..|modulus|])), Value(modulus))
  {
    hide Value, NoLeadingZero, Pow, Cong;
    var compared := Compare(ciphertext, modulus);
    if compared >= 0 {
      return InvalidArgument;
    }
    EmptyIsZero(modulus);
    LowLimb(modulus);
    OddValue(Value(modulus));
    var r := ModExpSecret.ModExpCt(ciphertext, d, modulus);
    if r.Success? {
      PowerOf(Value(ciphertext), Value(d[..|modulus|]), Value(modulus));
      return Success(r.value);
    }
    return ArithmeticError;
  }

  lemma EmptyIsZero(modulus: seq<word>)
    ensures Value(modulus) > 0 ==> modulus != []
  {
  }

  lemma PowerOf(b: nat, e: nat, n: nat)
    requires 0 < n
    ensures 0 <= Pow(b, e) % n < n && Cong(Pow(b, e) % n, Pow(b, e), n)
  {
    CongMod(Pow(b, e), n);
  }

  /** Raw RSA decryption undoes encryption on every message below the modulus: the number below the modulus that is
      congruent to c^d is the message, when c is congruent to its power by the public exponent. */
  lemma RoundTrip(p: int, q: int, d: nat, k: nat, message: nat, c: nat, recovered: nat)
    requires Prime(p) && Prime(q) && p != q && E * d == 1 + k * ((p - 1) * (q - 1))
    requires 0 < p * q && message < p * q && Cong(c, Pow(message, E), p * q)
    requires recovered < p * q && Cong(recovered, Pow(c, d), p * q)
    ensures recovered == message
  {
    hide Pow, Cong, Prime;
    PowerModProduct(message, p, q, E * d, k);
    var n := p * q;
    CongPow(c, Pow(message, E), d, n);
    PowPow(message, E, d);
    CongTrans(Pow(c, d), Pow(message, E * d), message, n);
    CongTrans(recovered, Pow(c, d), message, n);
    CongSameMod(recovered, message, n);
    DivModUnique(message, n, 0, message);
    DivModUnique(recovered, n, 0, recovered);
  }
}
