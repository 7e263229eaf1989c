/** Masked fixed-window scalar multiplication over any addition law. */
module Window25519 {
  import opened Arith
  import opened Bits

  const POINT_LIMBS := 64 // x, y, z and t, sixteen limbs each
  const WINDOW_POINTS := 16

  type Point = seq<bv32>

  /** ed25519_point_identity: (0, 1, 1, 0). */
  function Identity(): (p: Point)
    ensures |p| == POINT_LIMBS
  {
    seq(POINT_LIMBS, i requires 0 <= i < POINT_LIMBS => if i == 16 || i == 32 then 1 else 0)
  }

  /** In the four coordinates x, y, z and t of sixteen limbs each: 0, 1, 1 and 0. */
  lemma IdentityCoordinates()
    ensures forall i | 0 <= i < POINT_LIMBS && i % 16 != 0 :: Identity()[i] == 0
    ensures Identity()[0] == Identity()[48] == 0 && Identity()[16] == Identity()[32] == 1
  {
  }

  // ---------- the masked table scan ----------

  /** A table index as a 32-bit word. */
  function Index(i: nat): bv32
    requires i < WINDOW_POINTS
  {
    [0, 1, 2, 3, 4, 5, 6, 7, 8, 9, 10, 11, 12, 13, 14, 15][i]
  }

  /** ed25519_equal_mask_u32. */
  function EqualMask(left: bv32, right: bv32): bv32 {
    var difference := left ^ right;
    var spread := difference | (0 - difference);
    0 - ((spread >> 31) ^ 1)
  }

  lemma EqualMaskIs(left: bv32, right: bv32)
    ensures EqualMask(left, right) == if left == right then 0xffff_ffff else 0
  {
    assert left ^ right == 0 <==> left == right;
    TopSpreads(left ^ right);
  }

  /** A word or its negation has the top bit, unless the word is zero. */
  lemma TopSpreads(d: bv32)
    ensures (d | (0 - d)) >> 31 == if d == 0 then 0 else 1
  {
  }

  lemma IndexInjective(i: nat, j: nat)
    requires i < WINDOW_POINTS && j < WINDOW_POINTS
    ensures Index(i) == Index(j) <==> i == j
  {
  }

  /** The select expression of one limb. */
  function Select(old_: bv32, new_: bv32, mask: bv32): bv32 {
    (old_ & !mask) | (new_ & mask)
  }

  lemma SelectIs(x: bv32, y: bv32)
    ensures Select(x, y, 0xffff_ffff) == y && Select(x, y, 0) == x
  {
  }

  // The inner loops of ed25519_point_select, over the limbs of all four coordinates.
  method SelectEntry(out: Point, entry: Point, left: bv32, right: bv32) returns (result: Point)
    requires |out| == |entry| == POINT_LIMBS
    ensures result == if left == right then entry else out
  {
    var mask := EqualMask(left, right);
    EqualMaskIs(left, right);
    var limbs := new bv32[POINT_LIMBS](i => 0);
    for limb := 0 to POINT_LIMBS
      invariant forall k | 0 <= k < limb :: limbs[k] == if left == right then entry[k] else out[k]
    {
      SelectIs(out[limb], entry[limb]);
      limbs[limb] := Select(out[limb], entry[limb], mask);
    }
    result := limbs[..];
  }

  // ed25519_point_select: reads every entry, and is indexing.
  method PointSelect(table: seq<Point>, index: nat) returns (out: Point)
    requires |table| == WINDOW_POINTS && index < WINDOW_POINTS
    requires forall i | 0 <= i < WINDOW_POINTS :: |table[i]| == POINT_LIMBS
    ensures out == table[index]
  {
    out := Identity();
    for i := 0 to WINDOW_POINTS
      invariant |out| == POINT_LIMBS && (index < i ==> out == table[index])
    {
      IndexInjective(i, index);
      out := SelectEntry(out, table[i], Index(i), Index(index));
    }
  }

  // ---------- any addition law ----------

  /** Point addition and doubling, the points they are for, and when two representations are the same point. */
  datatype Curve = Curve(add: (Point, Point) -> Point, dbl: Point -> Point, on: Point -> bool, same: (Point, Point) -> bool)
  {
    /** Associative up to same, with the identity, and with a doubling that agrees with addition. */
    ghost predicate Laws() {
      && on(Identity())
      && (forall a | on(a) :: |a| == POINT_LIMBS && same(a, a))
      && (forall a, b {:trigger add(a, b)} | on(a) && on(b) :: on(add(a, b)))
      && (forall a {:trigger dbl(a)} | on(a) :: on(dbl(a)) && same(dbl(a), add(a, a)))
      && (forall a {:trigger add(a, Identity())} | on(a) :: same(add(a, Identity()), a))
      && (forall a {:trigger add(Identity(), a)} | on(a) :: same(add(Identity(), a), a))
      && (forall a, b, c {:trigger add(add(a, b), c)} | on(a) && on(b) && on(c) :: same(add(add(a, b), c), add(a, add(b, c))))
      && (forall a, b {:trigger same(a, b)} | same(a, b) :: same(b, a))
      && (forall a, b, c {:trigger same(a, b), same(b, c)} | same(a, b) && same(b, c) :: same(a, c))
      && (forall a, b, c, d {:trigger add(a, c), add(b, d)} |
            on(a) && on(b) && on(c) && on(d) && same(a, b) && same(c, d) :: same(add(a, c), add(b, d)))
    }

    /** p added to the identity n times. */
    ghost function Multiple(n: nat, p: Point): Point {
      if n == 0 then Identity() else add(Multiple(n - 1, p), p)
    }

    lemma {:induction false} MultipleOn(n: nat, p: Point)
      requires Laws() && on(p)
      ensures on(Multiple(n, p))
    {
      if n > 0 {
        MultipleOn(n - 1, p);
      }
    }

    lemma Linked(a: Point, b: Point, c: Point)
      requires Laws() && same(a, b) && same(b, c)
      ensures same(a, c)
    {
    }

    lemma {:induction false} MultipleAdd(m: nat, n: nat, p: Point)
      requires Laws() && on(p)
      ensures same(add(Multiple(m, p), Multiple(n, p)), Multiple(m + n, p))
    {
      MultipleOn(m, p);
      if n > 0 {
        MultipleOn(n - 1, p);
        MultipleOn(m + n - 1, p);
        MultipleAdd(m, n - 1, p);
        AddNext(Multiple(m, p), Multiple(n - 1, p), Multiple(m + n - 1, p), p);
      }
    }

    lemma AddNext(a: Point, b: Point, c: Point, p: Point)
      requires Laws() && on(a) && on(b) && on(c) && on(p) && same(add(a, b), c)
      ensures same(add(a, add(b, p)), add(c, p))
    {
      assert same(add(add(a, b), p), add(a, add(b, p)));
      assert same(add(add(a, b), p), add(c, p));
      Linked(add(a, add(b, p)), add(add(a, b), p), add(c, p));
    }

    /** The accumulator is some representation of n times p. */
    ghost predicate Represents(acc: Point, n: nat, p: Point) {
      on(acc) && same(acc, Multiple(n, p))
    }

    lemma AddRepresents(a: Point, m: nat, b: Point, n: nat, p: Point)
      requires Laws() && on(p) && Represents(a, m, p) && Represents(b, n, p)
      ensures Represents(add(a, b), m + n, p)
    {
      MultipleOn(m, p);
      MultipleOn(n, p);
      MultipleAdd(m, n, p);
      Linked(add(a, b), add(Multiple(m, p), Multiple(n, p)), Multiple(m + n, p));
    }

    lemma DoubleRepresents(a: Point, m: nat, p: Point)
      requires Laws() && on(p) && Represents(a, m, p)
      ensures Represents(dbl(a), 2 * m, p)
    {
      AddRepresents(a, m, a, m, p);
      Linked(dbl(a), add(a, a), Multiple(2 * m, p));
    }

    /** Entry i of the window table stands for i times p. */
    ghost predicate Table(table: seq<Point>, p: Point) {
      |table| <= WINDOW_POINTS && forall i | 0 <= i < |table| :: Represents(table[i], i, p)
    }

    lemma FirstEntries(p: Point)
      requires Laws() && on(p)
      ensures Represents(Identity(), 0, p) && Represents(p, 1, p)
    {
      assert Multiple(1, p) == add(Multiple(0, p), p);
      assert same(add(Identity(), p), p);
    }
  }

  // ed25519_point_process_window.
  method ProcessWindow(curve: Curve, accumulator: Point, table: seq<Point>, index: nat, ghost n: nat, ghost p: Point)
    returns (result: Point)
    requires curve.Laws() && curve.on(p) && curve.Represents(accumulator, n, p)
    requires |table| == WINDOW_POINTS && curve.Table(table, p) && index < WINDOW_POINTS
    ensures curve.Represents(result, 16 * n + index, p)
  {
    TableWidth(curve, table, p);
    hide *;
    result := accumulator;
    ghost var m := n;
    for i := 0 to 4
      invariant m == (match i case 0 => n case 1 => 2 * n case 2 => 4 * n case 3 => 8 * n case _ => 16 * n)
      invariant curve.Represents(result, m, p)
    {
      curve.DoubleRepresents(result, m, p);
      result := curve.dbl(result);
      m := 2 * m;
    }
    var selected := PointSelect(table, index);
    curve.AddRepresents(result, m, selected, index, p);
    result := curve.add(result, selected);
  }

  lemma TableWidth(curve: Curve, table: seq<Point>, p: Point)
    requires curve.Laws() && curve.Table(table, p)
    ensures forall i | 0 <= i < |table| :: |table[i]| == POINT_LIMBS && curve.Represents(table[i], i, p)
  {
  }

  // The table of ed25519_point_scalar_multiply.
  method BuildTable(curve: Curve, p: Point) returns (table: seq<Point>)
    requires curve.Laws() && curve.on(p)
    ensures |table| == WINDOW_POINTS && curve.Table(table, p)
  {
    curve.FirstEntries(p);
    table := [Identity(), p];
    for i := 2 to WINDOW_POINTS
      invariant |table| == i && curve.Table(table, p)
    {
      curve.AddRepresents(table[i - 1], i - 1, p, 1, p);
      table := table + [curve.add(table[i - 1], p)];
    }
  }

  // ed25519_point_scalar_multiply: for every scalar and every addition law the result is scalar-many additions.
  method ScalarMultiply(curve: Curve, p: Point, scalar: seq<byte>) returns (out: Point)
    requires curve.Laws() && curve.on(p)
    ensures curve.on(out) && curve.same(out, curve.Multiple(LeValue(scalar), p))
  {
    hide *;
    var table := BuildTable(curve, p);
    out := Identity();
    curve.FirstEntries(p);
    NoBytes(scalar);
    for i := |scalar| downto 0
      invariant curve.Represents(out, LeValue(scalar[i..]), p)
    {
      ghost var n := LeValue(scalar[i + 1..]);
      Halves(scalar, i);
      out := ProcessWindow(curve, out, table, scalar[i] / 16, n, p);
      out := ProcessWindow(curve, out, table, scalar[i] % 16, 16 * n + scalar[i] / 16, p);
    }
    assert scalar[0..] == scalar;
    RepresentsIs(curve, out, LeValue(scalar), p);
  }

  lemma RepresentsIs(curve: Curve, out: Point, n: nat, p: Point)
    requires curve.Represents(out, n, p)
    ensures curve.on(out) && curve.same(out, curve.Multiple(n, p))
  {
  }

  lemma NoBytes(s: seq<byte>)
    ensures LeValue(s[|s|..]) == 0
  {
  }

  /** One more byte is two more windows. */
  lemma Halves(s: seq<byte>, i: nat)
    requires i < |s|
    ensures s[i] / 16 < WINDOW_POINTS && s[i] % 16 < WINDOW_POINTS
    ensures LeValue(s[i..]) == 16 * (16 * LeValue(s[i + 1..]) + s[i] / 16) + s[i] % 16
  {
    assert s[i..][1..] == s[i + 1..];
  }
}
