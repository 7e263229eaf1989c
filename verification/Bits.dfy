/** Byte strings as little-endian numbers, bit by bit. */
module Bits {
  import opened Arith

  type byte = x: int | 0 <= x < 256

  /** Bit k: shift byte k / 8 right by k % 8 and keep the lowest bit. */
  function Bit(s: seq<byte>, k: nat): (b: nat)
    requires k < 8 * |s|
    ensures 0 <= b <= 1
  {
    PowPositive(2, k % 8);
    s[k / 8] / Pow(2, k % 8) % 2
  }

  /** The number whose binary digits are the bits from lo up to hi. */
  function BitsFrom(s: seq<byte>, lo: nat, hi: nat): nat
    requires lo <= hi <= 8 * |s|
    decreases hi - lo
  {
    if lo == hi then 0 else Bit(s, lo) + 2 * BitsFrom(s, lo + 1, hi)
  }

  /** The little-endian value. */
  function LeValue(s: seq<byte>): nat {
    if s == [] then 0 else s[0] + 256 * LeValue(s[1..])
  }

  lemma NoBits(s: seq<byte>, hi: nat)
    requires hi <= 8 * |s|
    ensures BitsFrom(s, hi, hi) == 0
  {
  }

  lemma MoreBits(s: seq<byte>, lo: nat, hi: nat)
    requires lo < hi <= 8 * |s|
    ensures BitsFrom(s, lo, hi) == 2 * BitsFrom(s, lo + 1, hi) + Bit(s, lo)
  {
  }

  lemma BitAt(s: seq<byte>, k: nat, j: nat)
    requires k < |s| && j < 8
    ensures 0 < Pow(2, j) && Bit(s, 8 * k + j) == s[k] / Pow(2, j) % 2
  {
    hide Pow;
    PowPositive(2, j);
    assert (8 * k + j) / 8 == k && (8 * k + j) % 8 == j;
  }

  lemma PowStep(b: int, e: nat)
    ensures Pow(b, e + 1) == b * Pow(b, e) && Pow(b, 0) == 1
  {
  }

  /** The bits from inside byte k on are the rest of that byte and the bytes above it. */
  lemma {:induction false} RestOfByte(s: seq<byte>, k: nat, j: nat)
    requires k < |s| && j <= 8
    ensures 0 < Pow(2, j)
    ensures BitsFrom(s, 8 * k + j, 8 * |s|) == s[k] / Pow(2, j) + Pow(2, 8 - j) * BitsFrom(s, 8 * k + 8, 8 * |s|)
    decreases 8 - j
  {
    hide Pow, Bit, BitsFrom;
    PowPositive(2, j);
    var above := BitsFrom(s, 8 * k + 8, 8 * |s|);
    if j == 8 {
      Pow2Values();
      PowStep(2, 0);
      assert s[k] / Pow(2, 8) == 0;
    } else {
      RestOfByte(s, k, j + 1);
      MoreBits(s, 8 * k + j, 8 * |s|);
      BitAt(s, k, j);
      PowStep(2, j);
      PowStep(2, 7 - j);
      HalfShift(s[k], Pow(2, j));
      MulAssoc(2, Pow(2, 7 - j), above);
    }
  }

  lemma HalfShift(x: int, p: int)
    requires 0 < p && 0 <= x
    ensures x / p == x / p % 2 + 2 * (x / (2 * p))
  {
    var q := x / p;
    DivMod(x, p);
    var h, b := q / 2, q % 2;
    assert q * p == (2 * h + b) * p;
    assert (2 * h + b) * p == h * (2 * p) + b * p;
    DivModUnique(x, 2 * p, h, b * p + x % p);
  }

  lemma {:induction false} BytesFromBits(s: seq<byte>, k: nat)
    requires k <= |s|
    ensures BitsFrom(s, 8 * k, 8 * |s|) == LeValue(s[k..])
    decreases |s| - k
  {
    hide Pow, Bit, BitsFrom;
    NoBits(s, 8 * |s|);
    if k < |s| {
      BytesFromBits(s, k + 1);
      RestOfByte(s, k, 0);
      Pow2Values();
      PowStep(2, 0);
      assert s[k..][1..] == s[k + 1..];
    }
  }

  /** All bits together are the little-endian value. */
  lemma BytesAreBits(s: seq<byte>)
    ensures BitsFrom(s, 0, 8 * |s|) == LeValue(s)
  {
    hide LeValue, BitsFrom;
    BytesFromBits(s, 0);
    assert s[0..] == s;
  }

  lemma DropTopBit(s: seq<byte>, hi: nat)
    requires hi < 8 * |s| && Bit(s, hi) == 0
    ensures BitsFrom(s, 0, hi) == BitsFrom(s, 0, hi + 1)
  {
    DropTopBitFrom(s, 0, hi);
  }

  lemma {:induction false} DropTopBitFrom(s: seq<byte>, lo: nat, hi: nat)
    requires lo <= hi < 8 * |s| && Bit(s, hi) == 0
    ensures BitsFrom(s, lo, hi) == BitsFrom(s, lo, hi + 1)
    decreases hi - lo
  {
    if lo < hi {
      DropTopBitFrom(s, lo + 1, hi);
    }
  }

  lemma {:induction false} LeConcat(a: seq<byte>, b: seq<byte>)
    ensures LeValue(a + b) == LeValue(a) + Pow(256, |a|) * LeValue(b)
  {
    if a == [] {
      assert a + b == b;
    } else {
      LeConcat(a[1..], b);
      assert (a + b)[1..] == a[1..] + b;
      MulAssoc(256, Pow(256, |a| - 1), LeValue(b));
    }
  }

  lemma {:induction false} LeBound(s: seq<byte>)
    ensures LeValue(s) < Pow(256, |s|)
  {
    if s != [] {
      LeBound(s[1..]);
    }
  }

  /** Equally long strings with equal values are equal. */
  lemma {:induction false} LeInjective(a: seq<byte>, b: seq<byte>)
    requires |a| == |b| && LeValue(a) == LeValue(b)
    ensures a == b
  {
    if a != [] {
      LeInjective(a[1..], b[1..]);
      assert a == [a[0]] + a[1..] && b == [b[0]] + b[1..];
    }
  }

  const TWO_248 := 0x100_0000_0000_0000_0000_0000_0000_0000_0000_0000_0000_0000_0000_0000_0000_0000

  /** A 32-byte number by its last byte and the rest. */
  lemma LastByte(s: seq<byte>)
    requires |s| == 32
    ensures LeValue(s) == LeValue(s[..31]) + TWO_248 * s[31] && LeValue(s[..31]) < TWO_248
  {
    hide LeValue, Pow;
    assert s == s[..31] + [s[31]];
    LeConcat(s[..31], [s[31]]);
    OneByte(s[31]);
    LeBound(s[..31]);
    TopWeight();
  }

  lemma OneByte(b: byte)
    ensures LeValue([b]) == b
  {
    assert LeValue([b][1..]) == 0;
  }

  lemma TopWeight()
    ensures Pow(256, 31) == TWO_248
  {
    hide Pow;
    Pow2Values();
    PowPow(2, 8, 31);
    PowAdd(2, 32, 32);
    PowAdd(2, 64, 64);
    PowAdd(2, 128, 64);
    PowAdd(2, 192, 32);
    PowAdd(2, 224, 16);
    PowAdd(2, 240, 8);
  }

  /** Bits from lo to hi are the low digits of those from lo on. */
  lemma {:induction false} LowerBits(s: seq<byte>, lo: nat, hi: nat)
    requires lo <= hi <= 8 * |s|
    ensures BitsFrom(s, lo, 8 * |s|) == BitsFrom(s, lo, hi) + Pow(2, hi - lo) * BitsFrom(s, hi, 8 * |s|)
    ensures 0 <= BitsFrom(s, lo, hi) < Pow(2, hi - lo)
    decreases hi - lo
  {
    if lo < hi {
      LowerBits(s, lo + 1, hi);
      MulAssoc(2, Pow(2, hi - lo - 1), BitsFrom(s, hi, 8 * |s|));
    }
  }

  /** The low bits are the value modulo a power of two. */
  lemma BitsAreRemainder(s: seq<byte>, hi: nat)
    requires hi <= 8 * |s|
    ensures 0 < Pow(2, hi) && BitsFrom(s, 0, hi) == LeValue(s) % Pow(2, hi)
  {
    hide LeValue, BitsFrom, Pow;
    LowerBits(s, 0, hi);
    BytesAreBits(s);
    DivModUnique(LeValue(s), Pow(2, hi), BitsFrom(s, hi, 8 * |s|), BitsFrom(s, 0, hi));
  }
}
