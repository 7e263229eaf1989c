/** Indices of 256 entries with their bits in reverse order. */
module BitReversal {
  import opened Arith

  const SIZE := 256

  /** The eight bits of i in reverse order. */
  function Brv8(i: nat): (j: nat)
    requires i < SIZE
    ensures j < SIZE
  {
    128 * (i % 2) + 64 * (i / 2 % 2) + 32 * (i / 4 % 2) + 16 * (i / 8 % 2)
      + 8 * (i / 16 % 2) + 4 * (i / 32 % 2) + 2 * (i / 64 % 2) + i / 128
  }

  lemma Brv8FromBits(a: nat, b: nat, c: nat, d: nat, e: nat, f: nat, g: nat, h: nat)
    requires a < 2 && b < 2 && c < 2 && d < 2 && e < 2 && f < 2 && g < 2 && h < 2
    ensures Brv8(a + 2 * b + 4 * c + 8 * d + 16 * e + 32 * f + 64 * g + 128 * h)
         == 128 * a + 64 * b + 32 * c + 16 * d + 8 * e + 4 * f + 2 * g + h
  {
    hide Brv8;
    var i := a + 2 * b + 4 * c + 8 * d + 16 * e + 32 * f + 64 * g + 128 * h;
    BitOf(i, 2, a, b, c + 2 * d + 4 * e + 8 * f + 16 * g + 32 * h);
    BitOf(i, 4, a + 2 * b, c, d + 2 * e + 4 * f + 8 * g + 16 * h);
    BitOf(i, 8, a + 2 * b + 4 * c, d, e + 2 * f + 4 * g + 8 * h);
    BitOf(i, 16, a + 2 * b + 4 * c + 8 * d, e, f + 2 * g + 4 * h);
    BitOf(i, 32, a + 2 * b + 4 * c + 8 * d + 16 * e, f, g + 2 * h);
    BitOf(i, 64, a + 2 * b + 4 * c + 8 * d + 16 * e + 32 * f, g, h);
    DivModUnique(i, 2, b + 2 * c + 4 * d + 8 * e + 16 * f + 32 * g + 64 * h, a);
    DivModUnique(i, 128, h, a + 2 * b + 4 * c + 8 * d + 16 * e + 32 * f + 64 * g);
    BitsJoined(i, a, b, c, d, e, f, g, h);
  }

  lemma BitOf(i: nat, p: nat, low: nat, bit: nat, rest: nat)
    requires low < p && bit < 2 && i == low + p * (bit + 2 * rest)
    ensures i / p % 2 == bit
  {
    DivModUnique(i, p, bit + 2 * rest, low);
  }

  lemma BitsJoined(i: nat, a: nat, b: nat, c: nat, d: nat, e: nat, f: nat, g: nat, h: nat)
    requires i < SIZE && a == i % 2 && b == i / 2 % 2 && c == i / 4 % 2 && d == i / 8 % 2
    requires e == i / 16 % 2 && f == i / 32 % 2 && g == i / 64 % 2 && h == i / 128
    ensures Brv8(i) == 128 * a + 64 * b + 32 * c + 16 * d + 8 * e + 4 * f + 2 * g + h
  {
  }

  /** Reversing twice restores the index, so the load writes every entry once. */
  lemma Brv8Involution(i: nat)
    requires i < SIZE
    ensures Brv8(Brv8(i)) == i
  {
    hide Brv8;
    var b := i / 2;
    var c := b / 2;
    var d := c / 2;
    var e := d / 2;
    var f := e / 2;
    var g := f / 2;
    var h := g / 2;
    Brv8FromBits(i % 2, b % 2, c % 2, d % 2, e % 2, f % 2, g % 2, h);
    Brv8FromBits(h, g % 2, f % 2, e % 2, d % 2, c % 2, b % 2, i % 2);
  }

  lemma Digits(i: nat) returns (a: nat, b: nat, c: nat, d: nat, e: nat, f: nat, g: nat, h: nat)
    requires i < SIZE
    ensures a < 2 && b < 2 && c < 2 && d < 2 && e < 2 && f < 2 && g < 2 && h < 2 && a == i % 2
    ensures i == a + 2 * b + 4 * c + 8 * d + 16 * e + 32 * f + 64 * g + 128 * h
    ensures i / 2 == b + 2 * c + 4 * d + 8 * e + 16 * f + 32 * g + 64 * h
    ensures Brv8(i) == 128 * a + 64 * b + 32 * c + 16 * d + 8 * e + 4 * f + 2 * g + h
    ensures (i < 128 ==> h == 0) && (i < 64 ==> g == 0) && (i < 32 ==> f == 0) && (i < 16 ==> e == 0)
    ensures (i < 8 ==> d == 0) && (i < 4 ==> c == 0) && (i < 2 ==> b == 0) && (i < 1 ==> a == 0)
  {
    hide Brv8;
    var i1 := i / 2;
    var i2 := i1 / 2;
    var i3 := i2 / 2;
    var i4 := i3 / 2;
    var i5 := i4 / 2;
    var i6 := i5 / 2;
    a, b, c, d, e, f, g, h := i % 2, i1 % 2, i2 % 2, i3 % 2, i4 % 2, i5 % 2, i6 % 2, i6 / 2;
    Brv8FromBits(a, b, c, d, e, f, g, h);
  }

  predicate PowerOfTwo(b: nat) {
    b == 1 || b == 2 || b == 4 || b == 8 || b == 16 || b == 32 || b == 64 || b == 128
  }

  lemma Brv8Power(b: nat)
    requires PowerOfTwo(b)
    ensures b < SIZE
    ensures (b == 1 ==> Brv8(b) == 128) && (b == 2 ==> Brv8(b) == 64) && (b == 4 ==> Brv8(b) == 32)
    ensures (b == 8 ==> Brv8(b) == 16) && (b == 16 ==> Brv8(b) == 8) && (b == 32 ==> Brv8(b) == 4)
    ensures (b == 64 ==> Brv8(b) == 2) && (b == 128 ==> Brv8(b) == 1)
  {
    hide Brv8;
    match b
    case 1 => Brv8FromBits(1, 0, 0, 0, 0, 0, 0, 0);
    case 2 => Brv8FromBits(0, 1, 0, 0, 0, 0, 0, 0);
    case 4 => Brv8FromBits(0, 0, 1, 0, 0, 0, 0, 0);
    case 8 => Brv8FromBits(0, 0, 0, 1, 0, 0, 0, 0);
    case 16 => Brv8FromBits(0, 0, 0, 0, 1, 0, 0, 0);
    case 32 => Brv8FromBits(0, 0, 0, 0, 0, 1, 0, 0);
    case 64 => Brv8FromBits(0, 0, 0, 0, 0, 0, 1, 0);
    case 128 => Brv8FromBits(0, 0, 0, 0, 0, 0, 0, 1);
  }

  /** A bit above all others is reversed by itself. */
  lemma Brv8Top(b: nat, j: nat)
    requires PowerOfTwo(b) && j < b
    ensures b + j < SIZE && Brv8(b + j) == Brv8(b) + Brv8(j)
  {
    hide Brv8;
    Brv8Power(b);
    var x, y, z, u, v, w, s, t := Digits(j);
    match b
    case 1 => Brv8FromBits(1, 0, 0, 0, 0, 0, 0, 0);
    case 2 => Brv8FromBits(x, 1, 0, 0, 0, 0, 0, 0);
    case 4 => Brv8FromBits(x, y, 1, 0, 0, 0, 0, 0);
    case 8 => Brv8FromBits(x, y, z, 1, 0, 0, 0, 0);
    case 16 => Brv8FromBits(x, y, z, u, 1, 0, 0, 0);
    case 32 => Brv8FromBits(x, y, z, u, v, 1, 0, 0);
    case 64 => Brv8FromBits(x, y, z, u, v, w, 1, 0);
    case 128 => Brv8FromBits(x, y, z, u, v, w, s, 1);
  }

  /** The lowest bit of an index becomes the highest, and the others move down by one. */
  lemma Brv8Halved(i: nat)
    requires i < SIZE
    ensures Brv8(128 + i / 2) + 256 * (i % 2) == 2 * Brv8(i) + 1
  {
    hide Brv8;
    var a, b, c, d, e, f, g, h := Digits(i);
    Brv8FromBits(b, c, d, e, f, g, h, 1);
  }

  /** Below a multiple of 2 h all digits up to that of h are zero. */
  lemma LowDigits(b: nat, h: nat, x: nat, y: nat, z: nat, u: nat, v: nat, w: nat, s: nat, t: nat)
    requires PowerOfTwo(h) && b % (2 * h) == 0 && b == x + 2 * y + 4 * z + 8 * u + 16 * v + 32 * w + 64 * s + 128 * t
    requires x < 2 && y < 2 && z < 2 && u < 2 && v < 2 && w < 2 && s < 2 && t < 2
    ensures x == 0 && (2 <= h ==> y == 0) && (4 <= h ==> z == 0) && (8 <= h ==> u == 0)
    ensures (16 <= h ==> v == 0) && (32 <= h ==> w == 0) && (64 <= h ==> s == 0) && (128 <= h ==> t == 0)
  {
    match h
    case 1 => DivModUnique(b, 2, y + 2 * z + 4 * u + 8 * v + 16 * w + 32 * s + 64 * t, x);
    case 2 => DivModUnique(b, 4, z + 2 * u + 4 * v + 8 * w + 16 * s + 32 * t, x + 2 * y);
    case 4 => DivModUnique(b, 8, u + 2 * v + 4 * w + 8 * s + 16 * t, x + 2 * y + 4 * z);
    case 8 => DivModUnique(b, 16, v + 2 * w + 4 * s + 8 * t, x + 2 * y + 4 * z + 8 * u);
    case 16 => DivModUnique(b, 32, w + 2 * s + 4 * t, x + 2 * y + 4 * z + 8 * u + 16 * v);
    case 32 => DivModUnique(b, 64, s + 2 * t, x + 2 * y + 4 * z + 8 * u + 16 * v + 32 * w);
    case 64 => DivModUnique(b, 128, t, x + 2 * y + 4 * z + 8 * u + 16 * v + 32 * w + 64 * s);
    case 128 => DivModUnique(b, 256, 0, x + 2 * y + 4 * z + 8 * u + 16 * v + 32 * w + 64 * s + 128 * t);
  }

  /** A bit below all others is reversed by itself, above all others; the others reversed stay below it. */
  lemma Brv8Inner(b: nat, h: nat)
    requires PowerOfTwo(h) && b % (2 * h) == 0 && b + 2 * h <= SIZE
    ensures Brv8(b + h) == Brv8(b) + Brv8(h) && Brv8(b) < Brv8(h)
  {
    hide Brv8;
    Brv8Power(h);
    var x, y, z, u, v, w, s, t := Digits(b);
    LowDigits(b, h, x, y, z, u, v, w, s, t);
    match h
    case 1 => Brv8FromBits(1, y, z, u, v, w, s, t);
    case 2 => Brv8FromBits(0, 1, z, u, v, w, s, t);
    case 4 => Brv8FromBits(0, 0, 1, u, v, w, s, t);
    case 8 => Brv8FromBits(0, 0, 0, 1, v, w, s, t);
    case 16 => Brv8FromBits(0, 0, 0, 0, 1, w, s, t);
    case 32 => Brv8FromBits(0, 0, 0, 0, 0, 1, s, t);
    case 64 => Brv8FromBits(0, 0, 0, 0, 0, 0, 1, t);
    case 128 => Brv8FromBits(0, 0, 0, 0, 0, 0, 0, 1);
  }
}
