/** ElGamal with the inverse of the shared secret taken by Fermat's exponent. */
module ElGamal {
  import opened Arith
  import opened NumberTheory
  import opened Limbs
  import opened Karatsuba
  import opened LongDivision
  import opened Montgomery
  import opened ModExp
  import opened ModExpSecret

  datatype Outcome<T> = Done(value: T) | MessageTooLarge | Rejected | ArithmeticError

  datatype Ciphertext = Ciphertext(c1: seq<word>, c2: seq<word>)

  /** The modulus, the generator and its power by the private exponent. */
  datatype PublicKey = PublicKey(p: seq<word>, g: seq<word>, h: seq<word>) {
    ghost predicate Ok() {
      NoLeadingZero(p) && NoLeadingZero(g) && NoLeadingZero(h)
    }
  }

  /** The generator is not a multiple of the prime, so neither is any power of it. */
  lemma {:induction false} PowerNotZero(g: nat, y: nat, p: int)
    requires Prime(p) && 0 < g < p
    ensures Pow(g, y) % p != 0
  {
    DivModUnique(g, p, 0, g);
    if y == 0 {
      DivModUnique(1, p, 0, 1);
    } else {
      PowerNotZero(g, y - 1, p);
      if Pow(g, y) % p == 0 {
        EuclidsLemma(g, Pow(g, y - 1), p);
      }
    }
  }

  /** The shared secret and the factor cancel: g^(x y) times g^(y (p - 1 - x)) is a power of g^(p - 1). */
  lemma SecretCancels(g: nat, x: nat, y: nat, p: int)
    requires Prime(p) && 0 < g < p && x <= p - 1
    ensures Cong(Pow(Pow(g, x), y) * Pow(Pow(g, y), p - 1 - x), 1, p)
  {
    var z := p - 1 - x;
    PowPow(g, x, y);
    PowPow(g, y, z);
    PowAdd(g, x * y, y * z);
    assert x * y + y * z == (p - 1) * y;
    DivModUnique(g, p, 0, g);
    FermatMultiple(g, p, y);
  }

  lemma DecryptsTo(m: int, hy: int, shared: int, c2: int, c1z: int, factor: int, p: int)
    requires 0 < p && Cong(shared, hy, p) && Cong(c2, m * shared, p) && Cong(factor, c1z, p) && Cong(hy * c1z, 1, p)
    ensures Cong(c2 * factor, m, p)
  {
    CongMul(shared, hy, factor, c1z, p);
    CongTrans(shared * factor, hy * c1z, 1, p);
    CongScale(c2, m * shared, factor, p);
    MulAssoc(m, shared, factor);
    CongScale(shared * factor, 1, m, p);
    CongTrans(c2 * factor, m * (shared * factor), m, p);
  }

  lemma PowerOf(b: nat, e: nat, n: nat)
    requires 0 < n
    ensures 0 <= Pow(b, e) % n < n && Cong(Pow(b, e) % n, Pow(b, e), n)
  {
    CongMod(Pow(b, e), n);
  }

  lemma ProductOf(m: nat, power: int, r: nat, n: nat)
    requires 0 < n && Cong(r, power, n)
    ensures 0 <= (m * r) % n < n && Cong((m * r) % n, m * power, n)
  {
    CongMod(m * r, n);
    CongScale(r, power, m, n);
    CongTrans((m * r) % n, m * r, m * power, n);
  }

  lemma SizeOf(p: seq<word>)
    requires NoLeadingZero(p)
    ensures p != [] <==> 0 < Value(p)
    ensures p != [] ==> p[0] % 2 == Value(p) % 2
  {
    hide Value, Weight;
    if p != [] {
      LongerIsLarger(p, []);
      LowLimb(p);
      OddValue(Value(p));
    } else {
      EmptyIsZero();
    }
  }

  lemma EmptyIsZero()
    ensures Value([]) == 0
  {
  }

  // crypto_elgamal_encrypt_internal, for the random exponent in its fixed storage.
  method Encrypt(key: PublicKey, message: seq<word>, y: seq<word>) returns (result: Outcome<Ciphertext>)
    requires key.Ok() && NoLeadingZero(message) && |y| == |key.p|
    ensures Value(message) >= Value(key.p) ==> result == MessageTooLarge
    ensures var p := Value(key.p);
      Value(message) < p && (p % 2 == 0 || Value(key.g) >= p || Value(key.h) >= p) ==> result == ArithmeticError
    ensures var p := Value(key.p);
      Value(message) < p && p % 2 == 1 && Value(key.g) < p && Value(key.h) < p ==>
        && result.Done? && NoLeadingZero(result.value.c1) && NoLeadingZero(result.value.c2)
        && Value(result.value.c1) < p && Cong(Value(result.value.c1), Pow(Value(key.g), Value(y)), p)
        && Value(result.value.c2) < p && Cong(Value(result.value.c2), Value(message) * Pow(Value(key.h), Value(y)), p)
  {
    hide Value, NoLeadingZero, Pow, Cong;
    SizeOf(key.p);
    var compared := Compare(message, key.p);
    if compared >= 0 {
      return MessageTooLarge;
    }
    assert y[..|key.p|] == y;
    var c1 := ModExpCt(key.g, y, key.p);
    var shared := ModExpCt(key.h, y, key.p);
    if !c1.Success? || !shared.Success? {
      return ArithmeticError;
    }
    PowerOf(Value(key.g), Value(y), Value(key.p));
    PowerOf(Value(key.h), Value(y), Value(key.p));
    ProductOf(Value(message), Pow(Value(key.h), Value(y)), Value(shared.value), Value(key.p));
    var c2 := MulMod(message, shared.value, key.p);
    result := Done(Ciphertext(c1.value, c2));
  }

  // p - 1 - x on fixed widths: bignum_sub_u32, then crypto_bignum_sub_secret_fixed.
  method InverseExponent(p: seq<word>, x: seq<word>) returns (ok: bool, e: seq<word>)
    requires p != [] && NoLeadingZero(p) && |x| == |p|
    ensures 0 < Value(p) && (ok <==> Value(x) <= Value(p) - 1)
    ensures ok ==> |e| == |p| && Value(e) == Value(p) - 1 - Value(x)
  {
    hide Value, Weight, NoLeadingZero, Region;
    SizeOf(p);
    var n := |p|;
    var words := new word[n](i requires 0 <= i < n reads {} => p[i]);
    assert words[..] == p && words[..][0..n] == p;
    RegionIsSlice(words[..], 0, n);
    SingleLimbValue([1]);
    var fits := SubtractWords(words, 0, n, [1]);
    RegionIsSlice(words[..], 0, n);
    ok := SubtractWords(words, 0, n, x);
    RegionIsSlice(words[..], 0, n);
    e := words[..];
    assert words[..][0..n] == e;
  }

  // crypto_elgamal_decrypt_internal, for the limbs of the private exponent's storage.
  method Decrypt(key: PublicKey, x: seq<word>, c: Ciphertext) returns (result: Outcome<seq<word>>)
    requires key.Ok() && NoLeadingZero(c.c1) && NoLeadingZero(c.c2) && |x| == |key.p|
    ensures var p := Value(key.p);
      Value(c.c1) == 0 || Value(c.c1) >= p || Value(c.c2) >= p ==> result == Rejected
    ensures var p := Value(key.p);
      0 < Value(c.c1) < p && Value(c.c2) < p && (p % 2 == 0 || Value(x) > p - 1) ==> result == ArithmeticError
    ensures var p := Value(key.p);
      0 < Value(c.c1) < p && Value(c.c2) < p && p % 2 == 1 && Value(x) <= p - 1 ==>
        && result.Done? && NoLeadingZero(result.value) && Value(result.value) < p
        && Cong(Value(result.value), Value(c.c2) * Pow(Value(c.c1), p - 1 - Value(x)), p)
  {
    hide Value, NoLeadingZero, Pow, Cong;
    SizeOf(key.p);
    SizeOf(c.c1);
    var first := Compare(c.c1, key.p);
    var second := Compare(c.c2, key.p);
    if c.c1 == [] || first >= 0 || second >= 0 {
      return Rejected;
    }
    var ok, e := InverseExponent(key.p, x);
    if !ok {
      return ArithmeticError;
    }
    assert e[..|key.p|] == e;
    var factor := ModExpCt(c.c1, e, key.p);
    if !factor.Success? {
      return ArithmeticError;
    }
    PowerOf(Value(c.c1), Value(e), Value(key.p));
    ProductOf(Value(c.c2), Pow(Value(c.c1), Value(e)), Value(factor.value), Value(key.p));
    var m := MulMod(c.c2, factor.value, key.p);
    result := Done(m);
  }

  /** Decryption recovers every message below p, whatever exponent was drawn, and accepts every ciphertext: any numbers
      below p with the congruences that encryption and decryption promise. */
  lemma RoundTrip(p: int, g: nat, h: nat, x: nat, y: nat, message: nat, c1: nat, c2: nat, recovered: nat)
    requires Prime(p) && 0 < g < p && x <= p - 1 && Cong(h, Pow(g, x), p) && message < p
    requires c1 < p && Cong(c1, Pow(g, y), p) && c2 < p && Cong(c2, message * Pow(h, y), p)
    requires recovered < p && Cong(recovered, c2 * Pow(c1, p - 1 - x), p)
    ensures 0 < c1 && recovered == message
  {
    hide Pow, Cong, Prime;
    var z := p - 1 - x;
    var gx, gy, hy := Pow(g, x), Pow(g, y), Pow(h, y);
    PowerNotZero(g, y, p);
    CongSameMod(c1, gy, p);
    SecretCancels(g, x, y, p);
    CongPow(h, gx, y, p);
    CongPow(c1, gy, z, p);
    DecryptsTo(message, Pow(gx, y), hy, c2, Pow(gy, z), Pow(c1, z), p);
    CongTrans(recovered, c2 * Pow(c1, z), message, p);
    CongSameMod(recovered, message, p);
    DivModUnique(message, p, 0, message);
    DivModUnique(recovered, p, 0, recovered);
  }
}
