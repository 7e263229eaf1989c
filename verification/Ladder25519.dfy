/** The x25519 ladder: masked swaps that are deferred by one step, over any differential addition. */
module Ladder25519 {
  import opened Arith
  import opened Bits

  const LIMBS := 16

  type Element = seq<bv32>

  /** A projective x-coordinate. */
  datatype Coordinate = Coordinate(x: Element, z: Element) {
    predicate Ok() {
      |x| == |z| == LIMBS
    }
  }

  // ---------- the masked swap ----------

  /** Where two limbs differ, under a mask. */
  function Difference(a: bv32, b: bv32, mask: bv32): bv32 {
    (a ^ b) & mask
  }

  function Toggled(a: bv32, difference: bv32): bv32 {
    a ^ difference
  }

  lemma XorSwap(a: bv32, b: bv32)
    ensures Toggled(a, Difference(a, b, 0xffff_ffff)) == b && Toggled(b, Difference(a, b, 0xffff_ffff)) == a
    ensures Toggled(a, Difference(a, b, 0)) == a && Toggled(b, Difference(a, b, 0)) == b
  {
  }

  /** The mask for a swap bit. */
  function SwapMask(swap: bv32): bv32 {
    0 - (swap & 1)
  }

  lemma SwapMaskIs()
    ensures SwapMask(0) == 0 && SwapMask(1) == 0xffff_ffff
  {
  }

  // x25519_fe_cswap.
  method CSwap(a: Element, b: Element, swap: bv32) returns (a': Element, b': Element)
    requires |a| == |b| == LIMBS && (swap == 0 || swap == 1)
    ensures a' == (if swap == 1 then b else a) && b' == (if swap == 1 then a else b)
  {
    hide Difference, Toggled, SwapMask;
    var mask := SwapMask(swap);
    SwapMaskIs();
    var left, right := new bv32[LIMBS](i => 0), new bv32[LIMBS](i => 0);
    for i := 0 to LIMBS
      invariant forall k | 0 <= k < i :: left[k] == (if swap == 1 then b[k] else a[k])
      invariant forall k | 0 <= k < i :: right[k] == (if swap == 1 then a[k] else b[k])
    {
      XorSwap(a[i], b[i]);
      var difference := Difference(a[i], b[i], mask);
      left[i] := Toggled(a[i], difference);
      right[i] := Toggled(b[i], difference);
    }
    a', b' := left[..], right[..];
  }

  // ---------- any differential addition ----------

  /** Doubling, the addition of two neighbours, and which multiple of the base a coordinate stands for. */
  datatype Differential = Differential(dbl: Coordinate -> Coordinate, add: (Coordinate, Coordinate) -> Coordinate,
                                       stands: (Coordinate, nat) -> bool)
  {
    ghost predicate Laws() {
      && (forall a, n: nat {:trigger stands(a, n)} | stands(a, n) :: a.Ok())
      && (forall a, n: nat {:trigger dbl(a), stands(a, n)} | stands(a, n) :: stands(dbl(a), 2 * n))
      && (forall a, b, n: nat {:trigger add(a, b), stands(a, n)} | stands(a, n) && stands(b, n + 1) :: stands(add(a, b), 2 * n + 1))
      && (forall a, b, n: nat {:trigger add(a, b), stands(b, n)} | stands(a, n + 1) && stands(b, n) :: stands(add(a, b), 2 * n + 1))
    }

    /** The two coordinates stand for n and n + 1, in an order the pending swap tells. */
    ghost predicate Neighbours(p: Coordinate, q: Coordinate, swap: nat, n: nat) {
      if swap == 1 then stands(q, n) && stands(p, n + 1) else stands(p, n) && stands(q, n + 1)
    }
  }

  // The two swaps of a step.
  method SwapBoth(p: Coordinate, q: Coordinate, swap: nat) returns (p': Coordinate, q': Coordinate)
    requires p.Ok() && q.Ok() && swap <= 1
    ensures p' == (if swap == 1 then q else p) && q' == (if swap == 1 then p else q)
  {
    var word: bv32 := if swap == 1 then 1 else 0;
    var x2, x3 := CSwap(p.x, q.x, word);
    var z2, z3 := CSwap(p.z, q.z, word);
    p', q' := Coordinate(x2, z2), Coordinate(x3, z3);
  }

  // One step of the ladder; the swap of this bit is left pending.
  method LadderStep(ops: Differential, p: Coordinate, q: Coordinate, swap: nat, bit: nat, ghost n: nat)
    returns (p': Coordinate, q': Coordinate)
    requires ops.Laws() && swap <= 1 && bit <= 1 && ops.Neighbours(p, q, swap, n)
    ensures ops.Neighbours(p', q', bit, 2 * n + bit)
  {
    var toggled := if swap == bit then 0 else 1;
    p', q' := SwapBoth(p, q, toggled);
    assert ops.Neighbours(p', q', bit, n);
    p', q' := ops.dbl(p'), ops.add(p', q');
  }

  /** The three low bits and the top bit cleared, the second bit from the top set. */
  function Clamped(s: seq<byte>): (c: seq<byte>)
    requires |s| == 32
    ensures |c| == 32
  {
    s[0 := s[0] - s[0] % 8][31 := s[31] % 64 + 64]
  }

  const TWO_254 := 0x4000_0000_0000_0000_0000_0000_0000_0000_0000_0000_0000_0000_0000_0000_0000_0000

  /** Clamping: bits 3 to 253 are kept, bits 0 to 2 and 255 are cleared and bit 254 is set. */
  lemma ClampedValue(s: seq<byte>)
    requires |s| == 32
    ensures LeValue(Clamped(s)) == TWO_254 + LeValue(s) % TWO_254 - LeValue(s) % 8
    ensures 0 <= LeValue(s) % 8 <= LeValue(s) % TWO_254 && LeValue(Clamped(s)) % 8 == 0
    ensures BitsFrom(Clamped(s), 0, 255) == LeValue(Clamped(s))
  {
    hide *;
    ClampedSum(s);
    LastByte(s);
    TopByte(LeValue(s), LeValue(s[..31]), s[31]);
    LowByte(s);
    ClampedBytes(s);
    LowByte(Clamped(s));
    LowOfRemainder(LeValue(s));
    ClampedBits(s);
  }

  lemma ClampedSum(s: seq<byte>)
    requires |s| == 32
    ensures LeValue(Clamped(s)) == TWO_254 + (LeValue(s[..31]) + TWO_248 * (s[31] % 64)) - s[0] % 8
  {
    hide LeValue, Clamped, Pow, BitsFrom, Bit;
    var c := Clamped(s);
    ClampedBytes(s);
    LastByte(c);
    LowByte(s[..31]);
    LowByte(c[..31]);
    var low, low' := LeValue(s[..31]), LeValue(c[..31]);
    assert low' == low - s[0] % 8;
  }

  lemma ClampedBytes(s: seq<byte>)
    requires |s| == 32
    ensures var c := Clamped(s);
      c[31] == s[31] % 64 + 64 && c[0] == s[0] - s[0] % 8 && c[..31][1..] == s[..31][1..] && c[0] % 8 == 0
  {
  }

  lemma ClampedBits(s: seq<byte>)
    requires |s| == 32
    ensures BitsFrom(Clamped(s), 0, 255) == LeValue(Clamped(s))
  {
    hide LeValue, Pow, BitsFrom, Bit;
    var c := Clamped(s);
    BytesAreBits(c);
    BitAt(c, 31, 7);
    Seventh();
    DropTopBit(c, 255);
  }

  lemma Seventh()
    ensures Pow(2, 7) == 128
  {
  }

  lemma LowByte(c: seq<byte>)
    requires c != []
    ensures LeValue(c) == c[0] + 256 * LeValue(c[1..]) && LeValue(c) % 8 == c[0] % 8
  {
    LowBits(c[0], LeValue(c[1..]));
  }

  lemma LowBits(b: byte, rest: nat)
    ensures (b + 256 * rest) % 8 == b % 8
  {
  }

  /** The two top bits of the last byte are what a remainder modulo 2^254 drops. */
  lemma TopByte(v: nat, low: nat, top: nat)
    requires low < TWO_248 && top < 256 && v == low + TWO_248 * top
    ensures v % TWO_254 == low + TWO_248 * (top % 64)
  {
    DivModUnique(v, TWO_254, top / 64, low + TWO_248 * (top % 64));
  }

  lemma LowOfRemainder(v: nat)
    ensures v % 8 <= v % TWO_254
  {
    DivMod(v, TWO_254);
    DivMod(v % TWO_254, 8);
    var q := v / TWO_254;
    DivModUnique(v, 8, (TWO_254 / 8) * q + v % TWO_254 / 8, v % TWO_254 % 8);
  }

  // The ladder of x25519_scalar_multiply, up to the last swap.
  method Ladder(ops: Differential, base: Coordinate, zero: Coordinate, scalar: seq<byte>) returns (out: Coordinate)
    requires ops.Laws() && |scalar| == 32 && ops.stands(zero, 0) && ops.stands(base, 1)
    ensures 0 <= LeValue(scalar) % 8 <= LeValue(scalar) % TWO_254
    ensures ops.stands(out, TWO_254 + LeValue(scalar) % TWO_254 - LeValue(scalar) % 8)
  {
    hide LeValue, Bit, BitsFrom, Pow, Clamped;
    var clamped := Clamped(scalar);
    var p, q := zero, base;
    var swap := 0;
    NoBits(clamped, 255);
    for bit := 255 downto 0
      invariant 0 <= swap <= 1 && ops.Neighbours(p, q, swap, BitsFrom(clamped, bit, 255))
    {
      ghost var n := BitsFrom(clamped, bit + 1, 255);
      p, q := LadderStep(ops, p, q, swap, Bit(clamped, bit), n);
      MoreBits(clamped, bit, 255);
      swap := Bit(clamped, bit);
    }
    p, q := SwapBoth(p, q, swap);
    ClampedValue(scalar);
    return p;
  }
}
