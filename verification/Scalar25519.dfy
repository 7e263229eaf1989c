/** Scalars modulo the order L of the Ed25519 base point, on eight 32-bit limbs. */
module Scalar25519 {
  import opened Arith
  import opened Bits
  import opened Limbs
  import opened Karatsuba

  const L := 0x1000_0000_0000_0000_0000_0000_0000_0000_14de_f9de_a2f7_9cd6_5812_631a_5cf5_d3ed

  function LLimbs(): (s: seq<word>)
    ensures |s| == 8
  {
    [0x5cf5d3ed, 0x5812631a, 0xa2f79cd6, 0x14def9de, 0, 0, 0, 0x10000000]
  }

  lemma FirstWeights()
    ensures Weight(0) == 1 && Weight(1) == B && Weight(2) == B * B && Weight(3) == B * B * B && Weight(4) == B * B * B * B
  {
  }

  lemma LastWeights()
    ensures Weight(7) == 0x1_0000_0000_0000_0000_0000_0000_0000_0000_0000_0000_0000_0000_0000_0000 && Weight(8) == B * Weight(7)
  {
    FirstWeights();
    WeightAdd(4, 3);
  }

  lemma LLimbsValue()
    ensures Value(LLimbs()) == L && 2 * L < Weight(8)
    ensures L == 0x1000_0000_0000_0000_0000_0000_0000_0000_0000_0000_0000_0000_0000_0000_0000_0000 + 27742317777372353535851937790883648493
  {
    hide Value, Weight;
    var s := LLimbs();
    FirstWeights();
    LastWeights();
    ValueNothing(s);
    ValuePrefix(s, 0);
    ValuePrefix(s, 1);
    ValuePrefix(s, 2);
    ValuePrefix(s, 3);
    ValuePrefix(s, 4);
    ValuePrefix(s, 5);
    ValuePrefix(s, 6);
    ValuePrefix(s, 7);
    assert s[..8] == s;
  }

  lemma BorrowLimb(done: seq<word>, a: seq<word>, b: seq<word>, i: nat, borrow: int, d: int, limb: word, out: int)
    requires i < |a| == |b| && |done| == i && d == a[i] - b[i] - borrow && limb == d + out * B
    requires Value(done) == Value(a[..i]) - Value(b[..i]) + borrow * Weight(i)
    ensures Value(done + [limb]) == Value(a[..i + 1]) - Value(b[..i + 1]) + out * Weight(i + 1)
  {
    hide Value, Weight;
    ValueAppend(done, limb);
    ValuePrefix(a, i);
    ValuePrefix(b, i);
    WeightStep(i);
    BorrowLimbArithmetic(a[i], b[i], borrow, d, out, Weight(i));
  }

  lemma BorrowLimbArithmetic(x: int, y: int, borrow: int, d: int, out: int, w: int)
    requires d == x - y - borrow
    ensures borrow * w + (d + out * B) * w == x * w - y * w + out * (B * w)
  {
    assert (d + out * B) * w == d * w + (out * B) * w;
    assert d * w == x * w - y * w - borrow * w;
    MulAssoc(out, B, w);
  }

  // ed25519_scalar_conditional_subtract_l.
  method ConditionalSubtractL(value: array<word>)
    requires value.Length == 8
    modifies value
    ensures Value(value[..]) == var v := old(Value(value[..])); if v < L then v else v - L
  {
    hide Value, Weight, LLimbs;
    var l := LLimbs();
    LLimbsValue();
    ghost var v := value[..];
    var difference := new word[8](i => 0);
    var borrow := 0;
    ValueNothing(v);
    ValueNothing(l);
    ValueNothing(difference[..]);
    for i := 0 to 8
      invariant 0 <= borrow <= 1 && value[..] == v
      invariant Value(difference[..i]) == Value(v[..i]) - Value(l[..i]) + borrow * Weight(i)
    {
      var d := value[i] - l[i] - borrow;
      ghost var done := difference[..i];
      difference[i] := d % B;
      assert difference[..i + 1] == done + [d % B];
      BorrowLimb(done, v, l, i, borrow, d, d % B, if d < 0 then 1 else 0);
      borrow := if d < 0 then 1 else 0;
    }
    ghost var d := difference[..];
    assert v[..8] == v && l[..8] == l && difference[..8] == d;
    ValueBound(d);
    ValueBound(v);
    var select := borrow == 0;
    for i := 0 to 8
      invariant difference[..] == d
      invariant forall k | 0 <= k < 8 :: value[k] == if k < i && select then d[k] else v[k]
    {
      value[i] := if select then difference[i] else value[i];
    }
    assert value[..] == if select then d else v;
  }

  lemma DoubleLimb(done: seq<word>, s: seq<word>, i: nat, carry: int, bit: int, limb: word, next: int)
    requires i < |s| && |done| == i && 2 * s[i] + carry == next * B + limb
    requires Value(done) + carry * Weight(i) == 2 * Value(s[..i]) + bit
    ensures Value(done + [limb]) + next * Weight(i + 1) == 2 * Value(s[..i + 1]) + bit
  {
    hide Value, Weight;
    ValueAppend(done, limb);
    ValuePrefix(s, i);
    WeightStep(i);
    DoubleArithmetic(s[i], carry, limb, next, Weight(i));
  }

  lemma DoubleArithmetic(x: int, carry: int, limb: int, next: int, w: int)
    requires 2 * x + carry == next * B + limb
    ensures limb * w + next * (B * w) == carry * w + 2 * (x * w)
  {
    assert next * (B * w) == (next * B) * w;
    assert limb * w + (next * B) * w == (2 * x + carry) * w;
  }

  // The inner loop of ed25519_scalar_reduce: shifts the remainder left and brings in a bit.
  method ShiftIn(remainder: array<word>, bit: nat) returns (carry: nat)
    requires remainder.Length == 8 && bit <= 1
    modifies remainder
    ensures Value(remainder[..]) + carry * Weight(8) == 2 * old(Value(remainder[..])) + bit
  {
    hide Value, Weight;
    ghost var s := remainder[..];
    carry := bit;
    ValueNothing(s);
    ValueNothing(remainder[..]);
    FirstWeights();
    for i := 0 to 8
      invariant 0 <= carry <= 1 && forall k | i <= k < 8 :: remainder[k] == s[k]
      invariant Value(remainder[..i]) + carry * Weight(i) == 2 * Value(s[..i]) + bit
    {
      var limb: int := remainder[i];
      var next := limb / 0x8000_0000;
      ghost var done := remainder[..i];
      var shifted := 2 * limb % B + carry;
      remainder[i] := shifted;
      assert remainder[..i + 1] == done + [shifted];
      DoubleLimb(done, s, i, carry, bit, shifted, next);
      carry := next;
    }
    assert s[..8] == s && remainder[..8] == remainder[..];
  }

  /** Four bytes per limb, low byte first. */
  function ByteOf(x: int, k: nat): byte
    requires k < 4
  {
    if k == 0 then x % 256 else if k == 1 then x / 0x100 % 256 else if k == 2 then x / 0x1_0000 % 256 else x / 0x100_0000 % 256
  }

  function WordBytes(s: seq<word>): (e: seq<byte>)
    ensures |e| == 4 * |s|
  {
    seq(4 * |s|, i requires 0 <= i < 4 * |s| => ByteOf(s[i / 4], i % 4))
  }

  function JoinBytes(b0: int, b1: int, b2: int, b3: int): int {
    b0 + 0x100 * b1 + 0x1_0000 * b2 + 0x100_0000 * b3
  }

  lemma SplitWord(x: word)
    ensures JoinBytes(ByteOf(x, 0), ByteOf(x, 1), ByteOf(x, 2), ByteOf(x, 3)) == x
  {
    var b: int := x / 0x100;
    var d: int := b / 0x100;
    var f: int := d / 0x100;
    DivModUnique(x, 0x1_0000, d, b % 0x100 * 0x100 + x % 0x100);
    DivModUnique(x, 0x100_0000, f, d % 0x100 * 0x1_0000 + b % 0x100 * 0x100 + x % 0x100);
    assert f % 0x100 == f;
  }

  lemma FourBytes(b: seq<byte>)
    requires |b| == 4
    ensures LeValue(b) == JoinBytes(b[0], b[1], b[2], b[3])
  {
    assert LeValue(b) == b[0] + 256 * LeValue(b[1..]);
    assert LeValue(b[1..]) == b[1] + 256 * LeValue(b[1..][1..]);
    assert b[1..][1..] == b[2..];
    assert LeValue(b[2..]) == b[2] + 256 * LeValue(b[2..][1..]);
    assert b[2..][1..] == b[3..];
    assert LeValue(b[3..]) == b[3] + 256 * LeValue(b[3..][1..]);
  }

  lemma {:induction false} BytePower(k: nat)
    ensures Pow(256, 4 * k) == Weight(k)
  {
    if k > 0 {
      BytePower(k - 1);
      PowAdd(256, 4, 4 * (k - 1));
      assert Pow(256, 4) == B;
    }
  }

  lemma {:induction false} WordBytesValue(s: seq<word>)
    ensures LeValue(WordBytes(s)) == Value(s)
  {
    hide LeValue, Value, Weight, Pow, ByteOf, JoinBytes;
    if s == [] {
      Nothing();
      assert WordBytes(s) == [];
    } else {
      var k := |s| - 1;
      var last := [ByteOf(s[k], 0), ByteOf(s[k], 1), ByteOf(s[k], 2), ByteOf(s[k], 3)];
      WordBytesValue(s[..k]);
      LastWord(s, last);
      LeConcat(WordBytes(s[..k]), last);
      FourBytes(last);
      SplitWord(s[k]);
      BytePower(k);
      assert s[..k] + [s[k]] == s;
      ValueAppend(s[..k], s[k]);
    }
  }

  lemma Nothing()
    ensures LeValue([]) == 0 && Value([]) == 0
  {
  }

  lemma LastWord(s: seq<word>, last: seq<byte>)
    requires s != [] && var x := s[|s| - 1]; last == [ByteOf(x, 0), ByteOf(x, 1), ByteOf(x, 2), ByteOf(x, 3)]
    ensures WordBytes(s) == WordBytes(s[..|s| - 1]) + last
  {
    hide ByteOf;
    var k := |s| - 1;
    forall i | 0 <= i < 4 * |s|
      ensures WordBytes(s)[i] == (WordBytes(s[..k]) + last)[i]
    {
      if i >= 4 * k {
        assert i / 4 == k;
      }
    }
  }

  // ed25519_scalar_reduce: for a string of any length the output is its value modulo L.
  method ScalarReduce(input: seq<byte>) returns (output: seq<byte>)
    ensures |output| == 32 && LeValue(output) == LeValue(input) % L
  {
    hide Value, Weight, LeValue, BitsFrom;
    var remainder := new word[8](i => 0);
    ValueZero(remainder[..]);
    NoBits(input, 8 * |input|);
    LLimbsValue();
    for bit := 8 * |input| downto 0
      invariant Value(remainder[..]) == BitsFrom(input, bit, 8 * |input|) % L
    {
      ghost var r := Value(remainder[..]);
      var carry := ShiftIn(remainder, Bit(input, bit));
      NoCarryOut(r, Bit(input, bit), Value(remainder[..]), carry);
      ConditionalSubtractL(remainder);
      MoreBits(input, bit, 8 * |input|);
      ReduceBit(BitsFrom(input, bit + 1, 8 * |input|), Bit(input, bit), r);
    }
    BytesAreBits(input);
    WordBytesValue(remainder[..]);
    output := WordBytes(remainder[..]);
  }

  /** The remainder is below L, so doubling it stays within eight limbs. */
  lemma NoCarryOut(r: int, bit: int, value: int, carry: nat)
    requires 0 <= r < L && 0 <= bit <= 1 && 0 <= value && value + carry * Weight(8) == 2 * r + bit
    ensures carry == 0
  {
    LLimbsValue();
    if carry > 0 {
      MulMono(1, carry, Weight(8));
    }
  }

  lemma ReduceBit(high: nat, bit: nat, r: int)
    requires r == high % L && bit <= 1
    ensures var x := 2 * r + bit; (2 * high + bit) % L == if x < L then x else x - L
  {
    var q, x := high / L, 2 * r + bit;
    if x < L {
      DivModUnique(2 * high + bit, L, 2 * q, x);
    } else {
      DivModUnique(2 * high + bit, L, 2 * q + 1, x - L);
    }
  }

  /** The limbs that groups of four bytes stand for. */
  function ByteWords(s: seq<byte>): (w: seq<word>)
    requires |s| == 32
    ensures |w| == 8
  {
    seq(8, i requires 0 <= i < 8 => JoinedWord(s[4 * i], s[4 * i + 1], s[4 * i + 2], s[4 * i + 3]))
  }

  function JoinedWord(b0: byte, b1: byte, b2: byte, b3: byte): word {
    JoinBytes(b0, b1, b2, b3)
  }

  lemma ByteWordsValue(s: seq<byte>)
    requires |s| == 32
    ensures Value(ByteWords(s)) == LeValue(s)
  {
    hide LeValue, Value, JoinedWord, ByteOf, ByteWords;
    var w := ByteWords(s);
    forall i | 0 <= i < 32
      ensures WordBytes(w)[i] == s[i]
    {
      WordByteAt(s, i / 4, i % 4);
      assert i == 4 * (i / 4) + i % 4;
    }
    assert WordBytes(w) == s;
    WordBytesValue(w);
  }

  lemma WordByteAt(s: seq<byte>, k: nat, j: nat)
    requires |s| == 32 && k < 8 && j < 4
    ensures ByteOf(ByteWords(s)[k], j) == s[4 * k + j]
  {
    hide JoinedWord, ByteOf;
    JoinedBytes(s[4 * k], s[4 * k + 1], s[4 * k + 2], s[4 * k + 3]);
  }

  lemma JoinedBytes(b0: byte, b1: byte, b2: byte, b3: byte)
    ensures var x := JoinedWord(b0, b1, b2, b3);
      ByteOf(x, 0) == b0 && ByteOf(x, 1) == b1 && ByteOf(x, 2) == b2 && ByteOf(x, 3) == b3
  {
    var y := b1 as int + 0x100 * b2 as int + 0x1_0000 * b3 as int;
    var z := b2 as int + 0x100 * b3 as int;
    var x: int := JoinedWord(b0, b1, b2, b3);
    assert x == b0 as int + 0x100 * y && y == b1 as int + 0x100 * z;
    assert x / 0x100 == y && x / 0x1_0000 == z && x / 0x100_0000 == b3;
  }

  // ed25519_scalar_mul_add.
  method ScalarMulAdd(left: seq<byte>, right: seq<byte>, addend: seq<byte>) returns (output: seq<byte>)
    requires |left| == |right| == |addend| == 32
    ensures |output| == 32 && LeValue(output) == (LeValue(left) * LeValue(right) + LeValue(addend)) % L
  {
    hide Value, Weight, LeValue, Region;
    var a, b, c := ByteWords(left), ByteWords(right), ByteWords(addend);
    ByteWordsValue(left);
    ByteWordsValue(right);
    ByteWordsValue(addend);
    var product := new word[16](i => 0);
    SchoolbookWords(product, 0, a, b);
    AddendFits(a, b, c);
    AddInto(product, c);
    WholeArray(product[..]);
    WordBytesValue(product[..]);
    output := ScalarReduce(WordBytes(product[..]));
  }

  // The two addition loops of ed25519_scalar_mul_add.
  method AddInto(product: array<word>, c: seq<word>)
    requires product.Length == 16 && |c| == 8 && Value(Region(product[..], 0, 16)) + Value(c) < Weight(16)
    modifies product
    ensures Value(Region(product[..], 0, 16)) == old(Value(Region(product[..], 0, 16))) + Value(c)
  {
    hide Value, Weight, Region;
    ghost var start := Value(Region(product[..], 0, 16));
    var carry := 0;
    ValueNothing(c);
    TimesFirstWeight(Value(c));
    for i := 0 to 8
      invariant 0 <= carry <= 1
      invariant Value(Region(product[..], 0, 16)) + carry * Weight(i) == start + Value(c[..i]) * Weight(0)
    {
      var value := product[i] + c[i] + carry;
      ghost var s := product[..];
      product[i] := value % B;
      ShiftedStep(s, product[..], 0, 16, c, 0, i, carry, value, start);
      carry := value / B;
    }
    assert c[..8] == c;
    for i := 8 to 16
      invariant 0 <= carry <= 1
      invariant Value(Region(product[..], 0, 16)) + carry * Weight(i) == start + Value(c)
    {
      var limb: int := product[i];
      var value := limb + carry;
      ghost var s := product[..];
      product[i] := value % B;
      PropagateStep(s, product[..], 0, 16, i, carry, value);
      carry := value / B;
    }
    CarryOut(Region(product[..], 0, 16), carry, 16, start + Value(c));
  }

  lemma WholeArray(s: seq<word>)
    ensures Region(s, 0, |s|) == s
  {
  }

  /** Sixteen limbs hold the product plus the addend, so no carry is lost. */
  lemma AddendFits(a: seq<word>, b: seq<word>, c: seq<word>)
    requires |a| == |b| == |c| == 8
    ensures Value(a) * Value(b) + Value(c) < Weight(16)
  {
    hide Value, Weight;
    ValueBound(a);
    ValueBound(b);
    ValueBound(c);
    WeightAdd(8, 8);
    SumFits(Value(a), Value(b), Value(c), Weight(8));
  }

  lemma SumFits(a: int, b: int, c: int, w: int)
    requires 0 <= a < w && 0 <= b < w && 0 <= c < w
    ensures a * b + c < w * w
  {
    MulBound(a, w - 1, b, w - 1);
    assert (w - 1) * (w - 1) == w * w - 2 * w + 1;
  }
}
