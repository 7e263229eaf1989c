/** The lazily reduced number-theoretic transform over X^256 + 1. */
module Ntt {
  import opened Arith
  import opened Reduce
  import opened ZetaTable

  const N := 256
  const MONT_INVERSE := 50386 // MONT * MONT_INVERSE is 1 modulo Q

  ghost predicate Eq(a: int, b: int) {
    Cong(a, b, Q)
  }

  /** The reduced product with a table constant. */
  function Twist(z: int, h: int): int {
    MontgomeryReduce(z * h)
  }

  // ---------- polynomials by their coefficients ----------

  function Eval(a: seq<int>, r: int): int {
    if a == [] then 0 else a[0] + r * Eval(a[1..], r)
  }

  lemma {:induction false} EvalConcat(a: seq<int>, b: seq<int>, r: int)
    ensures Eval(a + b, r) == Eval(a, r) + Pow(r, |a|) * Eval(b, r)
  {
    if a == [] {
      assert a + b == b;
    } else {
      EvalConcat(a[1..], b, r);
      assert (a + b)[1..] == a[1..] + b;
      HornerStep(r, Eval(a[1..], r), Pow(r, |a| - 1), Eval(b, r));
    }
  }

  lemma HornerStep(r: int, x: int, p: int, y: int)
    ensures r * (x + p * y) == r * x + (r * p) * y
  {
    assert r * (x + p * y) == r * x + r * (p * y);
    MulAssoc(r, p, y);
  }

  ghost predicate Combines(out: seq<int>, a: seq<int>, b: seq<int>, c: int, d: int) {
    |out| == |a| == |b| && forall j | 0 <= j < |out| :: Eq(out[j], c * a[j] + d * b[j])
  }

  /** A coefficientwise linear combination evaluates to the same combination of the values. */
  lemma {:induction false} EvalLinear(out: seq<int>, a: seq<int>, b: seq<int>, c: int, d: int, r: int)
    requires Combines(out, a, b, c, d)
    ensures Eq(Eval(out, r), c * Eval(a, r) + d * Eval(b, r))
  {
    if out == [] {
      CongRefl(0, Q);
    } else {
      forall j | 0 <= j < |out[1..]|
        ensures Eq(out[1..][j], c * a[1..][j] + d * b[1..][j])
      {
        assert Eq(out[j + 1], c * a[j + 1] + d * b[j + 1]);
      }
      EvalLinear(out[1..], a[1..], b[1..], c, d, r);
      var x, y := Eval(a[1..], r), Eval(b[1..], r);
      CongScale(Eval(out[1..], r), c * x + d * y, r, Q);
      CongAdd(out[0], c * a[0] + d * b[0], r * Eval(out[1..], r), r * (c * x + d * y), Q);
      LinearStep(a[0], b[0], c, d, r, x, y);
    }
  }

  lemma LinearStep(a: int, b: int, c: int, d: int, r: int, x: int, y: int)
    ensures c * a + d * b + r * (c * x + d * y) == c * (a + r * x) + d * (b + r * y)
  {
    calc {
      c * (a + r * x) + d * (b + r * y);
      c * a + c * (r * x) + d * b + d * (r * y);
      { assert c * (r * x) == r * (c * x); assert d * (r * y) == r * (d * y); }
      c * a + d * b + (r * (c * x) + r * (d * y));
      { assert r * (c * x) + r * (d * y) == r * (c * x + d * y); }
      c * a + d * b + r * (c * x + d * y);
    }
  }

  // ---------- the tree of blocks ----------

  /** Block length of node k: a child's block is half its parent's. */
  function Size(k: nat): nat
    requires 1 <= k < 512
  {
    if k == 1 then N else Size(k / 2) / 2
  }

  /** First index of node k's block. */
  function Start(k: nat): nat
    requires 1 <= k < 512
  {
    if k == 1 then 0 else if k % 2 == 0 then Start(k / 2) else Start(k / 2) + Size(k / 2) / 2
  }

  /** The same by level, as the transforms' counters run: 2^t blocks of 256 / 2^t entries each. */
  ghost predicate AtLevel(k: nat, base: nat, size: nat)
    requires 1 <= k < 512
  {
    base <= k < 2 * base && Size(k) == size && Start(k) == (k - base) * size
  }

  lemma {:induction false} Levels(k: nat)
    requires 1 <= k < 512
    ensures k == 1 ==> AtLevel(k, 1, 256)
    ensures 2 <= k < 4 ==> AtLevel(k, 2, 128)
    ensures 4 <= k < 8 ==> AtLevel(k, 4, 64)
    ensures 8 <= k < 16 ==> AtLevel(k, 8, 32)
    ensures 16 <= k < 32 ==> AtLevel(k, 16, 16)
    ensures 32 <= k < 64 ==> AtLevel(k, 32, 8)
    ensures 64 <= k < 128 ==> AtLevel(k, 64, 4)
    ensures 128 <= k < 256 ==> AtLevel(k, 128, 2)
    ensures 256 <= k ==> AtLevel(k, 256, 1)
  {
    if k > 1 {
      Levels(k / 2);
    }
  }

  /** The two children of a node halve its block. */
  lemma Children(k: nat)
    requires 1 <= k < 256
    ensures Size(2 * k) == Size(2 * k + 1) && Size(k) == 2 * Size(2 * k)
    ensures Start(2 * k) == Start(k) && Start(2 * k + 1) == Start(k) + Size(2 * k)
    ensures Start(k) + Size(k) <= N && 0 < Size(2 * k)
  {
    Levels(k);
  }

  lemma Leaves(k: nat)
    requires 256 <= k < 512
    ensures Size(k) == 1 && Start(k) == k - 256
  {
    Levels(k);
  }

  /** The nodes from k up to 2k - 1 are the frontier of a breadth-first walk; their blocks are disjoint. */
  lemma FrontierDisjoint(k: nat, i: nat)
    requires 1 <= k < 256 && k < i < 2 * k
    ensures Start(i) + Size(i) <= Start(k) || Start(k) + Size(k) <= Start(i)
    ensures Start(i) + Size(i) <= N
  {
    Levels(k);
    Levels(i);
  }

  function Block(s: seq<int>, k: nat): (b: seq<int>)
    requires |s| == N && 1 <= k < 512
    ensures |b| == Size(k)
  {
    BlockInRange(k);
    s[Start(k)..Start(k) + Size(k)]
  }

  lemma BlockInRange(k: nat)
    requires 1 <= k < 512
    ensures Start(k) + Size(k) <= N
  {
    Levels(k);
  }

  // ---------- the roots ----------

  /** A table of 256 constants, in the order the transforms read it. */
  datatype Transform = Transform(zetas: seq<int>)
  {
    predicate NodeFacts(k: nat)
      requires |zetas| == N && 1 <= k < 256
    {
      Fact(k, zetas[k], zetas[k / 2], zetas[Mirror(k)])
    }

    ghost predicate Valid() {
      |zetas| == N && forall k | 1 <= k < 256 :: NodeFacts(k)
    }

    /** Node k stands for the factor X^m - W(k) with m the length of its block. */
    function W(k: nat): int
      requires Valid() && 1 <= k < 512
    {
      if k == 1 then -1
      else if k % 2 == 0 then zetas[k / 2] * MONT_INVERSE else -(zetas[k / 2] * MONT_INVERSE)
    }

    /** The root that index i of the transformed array belongs to. */
    function Root(i: nat): int
      requires Valid() && i < N
    {
      W(N + i)
    }

    lemma SplitFactor(k: nat)
      requires Valid() && 1 <= k < 256
      ensures W(2 * k + 1) == -W(2 * k) && W(2 * k) == zetas[k] * MONT_INVERSE
      ensures Eq(W(2 * k) * W(2 * k), W(k))
      ensures Eq(W(2 * k) * (-zetas[Mirror(k)] * MONT_INVERSE), 1)
    {
      assert NodeFacts(k);
      var z, p, m := zetas[k], zetas[k / 2], zetas[Mirror(k)];
      if k == 1 {
        Freed(z, z, -MONT * MONT, -1, -8070848889795);
      } else if k % 2 == 0 {
        Freed(z, z, MONT * p, p * MONT_INVERSE, p * MONT_INVERSE * 11185);
      } else {
        Freed(z, z, -MONT * p, -(p * MONT_INVERSE), -(p * MONT_INVERSE) * 11185);
      }
      Freed(z, m, -MONT * MONT, -1, -8070848889795);
      Negated(z * MONT_INVERSE, m);
    }

    /** A root to the power of a block's length is the constant of that block's factor. */
    lemma {:induction false} RootPower(k: nat, i: nat)
      requires Valid() && 1 <= k < 512 && Start(k) <= i < Start(k) + Size(k) && i < N
      ensures Eq(Pow(Root(i), Size(k)), W(k))
      decreases 512 - k
    {
      if k >= 256 {
        Leaves(k);
        LeafPower(k, i);
      } else {
        Children(k);
        var c := if i < Start(2 * k + 1) then 2 * k else 2 * k + 1;
        RootPower(c, i);
        SquareFactor(k, c);
        SquarePower(Root(i), Size(c), W(c), W(k));
      }
    }

    lemma SquareFactor(k: nat, c: nat)
      requires Valid() && 1 <= k < 256 && (c == 2 * k || c == 2 * k + 1)
      ensures Eq(W(c) * W(c), W(k))
    {
      SplitFactor(k);
      var w := W(2 * k);
      assert -w * -w == w * w;
    }

    lemma LeafPower(k: nat, i: nat)
      requires Valid() && 256 <= k < 512 && k == N + i
      ensures Eq(Pow(Root(i), 1), W(k))
    {
      assert Pow(Root(i), 1) == Root(i) * Pow(Root(i), 0);
      CongRefl(Root(i), Q);
    }

    /** The values of a at the roots. */
    ghost function Values(a: seq<int>): (v: seq<int>)
      requires Valid()
      ensures |v| == N
    {
      seq(N, i requires 0 <= i < N => Eval(a, Root(i)))
    }

    /** Entry i of the transform of a is the value of a at root i. */
    ghost predicate IsTransform(a: seq<int>, out: seq<int>)
      requires Valid() && |a| == |out| == N
    {
      forall i | 0 <= i < N :: Eq(out[i], Eval(a, Root(i)))
    }

    /** At every root below node k, b evaluates to scale times the value listed for that root. */
    ghost predicate Matches(b: seq<int>, v: seq<int>, scale: int, k: nat)
      requires Valid() && |v| == N && 1 <= k < 512
    {
      forall i | Start(k) <= i < Start(k) + Size(k) && i < N :: Eq(Eval(b, Root(i)), scale * v[i])
    }

    lemma MatchesChildren(b: seq<int>, v: seq<int>, scale: int, k: nat)
      requires Valid() && |v| == N && 1 <= k < 256
      ensures Matches(b, v, scale, k) <==> Matches(b, v, scale, 2 * k) && Matches(b, v, scale, 2 * k + 1)
    {
      Children(k);
    }

    /** Below node c, a block of twice its length agrees with lo + W(c) * hi. */
    lemma HalfMatches(whole: seq<int>, half: seq<int>, v: seq<int>, scale: int, c: nat)
      requires Valid() && |v| == N && 1 <= c < 512 && |half| == Size(c) && |whole| == 2 * |half|
      requires Combines(half, whole[..|half|], whole[|half|..], 1, W(c)) && Matches(whole, v, scale, c)
      ensures Matches(half, v, scale, c)
    {
      hide Eval, Pow, Cong, Combines, Size, Start, W, Root;
      var lo, hi, w := whole[..|half|], whole[|half|..], W(c);
      forall i | Start(c) <= i < Start(c) + Size(c) && i < N
        ensures Eq(Eval(half, Root(i)), scale * v[i])
      {
        var r := Root(i);
        EvalLinear(half, lo, hi, 1, w, r);
        RootPower(c, i);
        EvalSplit(whole, |half|, r, w);
        CongSym(Eval(whole, r), Eval(lo, r) + w * Eval(hi, r), Q);
        CongTrans(Eval(half, r), Eval(lo, r) + w * Eval(hi, r), Eval(whole, r), Q);
        CongTrans(Eval(half, r), Eval(whole, r), scale * v[i], Q);
      }
    }

    /** Below node c, the block merged with the inverse of the node's constant has twice the value of c's block. */
    lemma MergedMatches(lo: seq<int>, hi: seq<int>, whole: seq<int>, u: int, v: seq<int>, scale: int, c: nat, left: bool)
      requires Valid() && |v| == N && 1 <= c < 512 && |lo| == Size(c) && |whole| == 2 * |lo|
      requires Combines(whole[..|lo|], lo, hi, 1, 1) && Combines(whole[|lo|..], lo, hi, u, -u)
      requires Eq(W(c) * u, if left then 1 else -1) && Matches(if left then lo else hi, v, scale, c)
      ensures Matches(whole, v, 2 * scale, c)
    {
      hide Eval, Pow, Cong, Combines, Size, Start, W, Root;
      var m, w := |lo|, W(c);
      forall i | Start(c) <= i < Start(c) + Size(c) && i < N
        ensures Eq(Eval(whole, Root(i)), 2 * scale * v[i])
      {
        var r := Root(i);
        RootPower(c, i);
        EvalSplit(whole, m, r, w);
        MergedValue(whole[..m], whole[m..], lo, hi, u, w, r, left);
        var part := Eval(if left then lo else hi, r);
        CongTrans(Eval(whole, r), Eval(whole[..m], r) + w * Eval(whole[m..], r), 2 * part, Q);
        CongScale(part, scale * v[i], 2, Q);
        assert 2 * (scale * v[i]) == 2 * scale * v[i];
        CongTrans(Eval(whole, r), 2 * part, 2 * scale * v[i], Q);
      }
    }

    // ---------- one node of the walks ----------

    /** A forward butterfly turns a block that matches at node k into two that match at its children. */
    lemma ForwardNode(whole: seq<int>, lo: seq<int>, hi: seq<int>, v: seq<int>, scale: int, k: nat)
      requires Valid() && |v| == N && 1 <= k < 256 && |whole| == Size(k) == 2 * |lo|
      requires Butterflies(whole[..|lo|], whole[|lo|..], lo, hi, zetas[k]) && Matches(whole, v, scale, k)
      ensures Matches(lo, v, scale, 2 * k) && Matches(hi, v, scale, 2 * k + 1)
    {
      Children(k);
      SplitFactor(k);
      MatchesChildren(whole, v, scale, k);
      ButterflyEntries(whole[..|lo|], whole[|lo|..], lo, hi, zetas[k]);
      HalfMatches(whole, lo, v, scale, 2 * k);
      HalfMatches(whole, hi, v, scale, 2 * k + 1);
    }

    /** An inverse butterfly merges the blocks of two children into a block of twice their values. */
    lemma InverseNode(lo: seq<int>, hi: seq<int>, whole: seq<int>, v: seq<int>, scale: int, k: nat)
      requires Valid() && |v| == N && 1 <= k < 256 && |whole| == Size(k) == 2 * |lo|
      requires InverseButterflies(lo, hi, whole[..|lo|], whole[|lo|..], -zetas[Mirror(k)])
      requires Matches(lo, v, scale, 2 * k) && Matches(hi, v, scale, 2 * k + 1)
      ensures Matches(whole, v, 2 * scale, k)
    {
      hide Eval, Pow, Cong, Combines, Size, Start, Matches, W, Root, InverseButterflies;
      var u := -zetas[Mirror(k)] * MONT_INVERSE;
      Children(k);
      SplitFactor(k);
      InverseButterflyEntries(lo, hi, whole[..|lo|], whole[|lo|..], -zetas[Mirror(k)]);
      NegateLeft(W(2 * k), u);
      MergedMatches(lo, hi, whole, u, v, scale, 2 * k, true);
      MergedMatches(lo, hi, whole, u, v, scale, 2 * k + 1, false);
      MatchesChildren(whole, v, 2 * scale, k);
    }

    /** A polynomial that vanishes at every root below a node vanishes modulo Q. */
    lemma {:induction false} ZeroFromRoots(s: seq<int>, v: seq<int>, k: nat)
      requires Valid() && |v| == N && 1 <= k < 512 && |s| == Size(k) && Matches(s, v, 0, k)
      ensures forall j | 0 <= j < |s| :: Eq(s[j], 0)
      decreases 512 - k
    {
      if k >= 256 {
        Leaves(k);
        assert Eq(Eval(s, Root(k - N)), 0 * v[k - N]);
        EvalSingle(s, Root(k - N));
      } else {
        Children(k);
        var m, w := Size(2 * k), W(2 * k);
        var left, right := Combination(s[..m], s[m..], w), Combination(s[..m], s[m..], -w);
        ZeroBelow(s, left, right, v, k);
        ZeroFromRoots(left, v, 2 * k);
        ZeroFromRoots(right, v, 2 * k + 1);
        SplitFactor(k);
        HalvesZero(s[..m], s[m..], w, -zetas[Mirror(k)] * MONT_INVERSE, left, right);
        assert s[..m] + s[m..] == s;
      }
    }

    lemma ZeroBelow(s: seq<int>, left: seq<int>, right: seq<int>, v: seq<int>, k: nat)
      requires Valid() && |v| == N && 1 <= k < 256 && |s| == Size(k) == 2 * |left| && |left| == |right|
      requires Combines(left, s[..|left|], s[|left|..], 1, W(2 * k)) && Matches(s, v, 0, k)
      requires Combines(right, s[..|left|], s[|left|..], 1, -W(2 * k))
      ensures Matches(left, v, 0, 2 * k) && Matches(right, v, 0, 2 * k + 1)
    {
      Children(k);
      SplitFactor(k);
      MatchesChildren(s, v, 0, k);
      HalfMatches(s, left, v, 0, 2 * k);
      HalfMatches(s, right, v, 0, 2 * k + 1);
    }
  }

  function Combination(lo: seq<int>, hi: seq<int>, w: int): (s: seq<int>)
    requires |lo| == |hi|
    ensures Combines(s, lo, hi, 1, w)
  {
    var s := seq(|lo|, j requires 0 <= j < |lo| => 1 * lo[j] + w * hi[j]);
    assert forall j | 0 <= j < |lo| :: Eq(s[j], 1 * lo[j] + w * hi[j]);
    s
  }

  lemma HalvesZero(lo: seq<int>, hi: seq<int>, w: int, u: int, left: seq<int>, right: seq<int>)
    requires |lo| == |hi| && Eq(w * u, 1)
    requires left == Combination(lo, hi, w) && right == Combination(lo, hi, -w)
    requires forall j | 0 <= j < |left| :: Eq(left[j], 0)
    requires forall j | 0 <= j < |right| :: Eq(right[j], 0)
    ensures forall j | 0 <= j < |lo + hi| :: Eq((lo + hi)[j], 0)
  {
    forall j | 0 <= j < |lo|
      ensures Eq(lo[j], 0) && Eq(hi[j], 0)
    {
      assert left[j] == 1 * lo[j] + w * hi[j] && right[j] == 1 * lo[j] + -w * hi[j];
      assert -w * hi[j] == -(w * hi[j]);
      BothHalvesZero(lo[j], hi[j], w, u);
    }
  }

  lemma EvalSingle(s: seq<int>, r: int)
    requires |s| == 1
    ensures Eval(s, r) == s[0]
  {
    assert Eval(s[1..], r) == 0;
  }

  lemma NegateLeft(w: int, u: int)
    requires Eq(w * u, 1)
    ensures Eq(-w * u, -1)
  {
    CongRefl(0, Q);
    CongSub(0, 0, w * u, 1, Q);
    assert -w * u == 0 - w * u;
  }

  lemma EvalSplit(s: seq<int>, m: nat, r: int, w: int)
    requires m <= |s| && Eq(Pow(r, m), w)
    ensures Eq(Eval(s, r), Eval(s[..m], r) + w * Eval(s[m..], r))
  {
    assert s[..m] + s[m..] == s;
    EvalConcat(s[..m], s[m..], r);
    var x, y := Eval(s[..m], r), Eval(s[m..], r);
    CongScale(Pow(r, m), w, y, Q);
    CongRefl(x, Q);
    CongAdd(x, x, Pow(r, m) * y, w * y, Q);
  }

  lemma MergedValue(low: seq<int>, up: seq<int>, lo: seq<int>, hi: seq<int>, u: int, w: int, r: int, left: bool)
    requires Combines(low, lo, hi, 1, 1) && Combines(up, lo, hi, u, -u) && Eq(w * u, if left then 1 else -1)
    ensures Eq(Eval(low, r) + w * Eval(up, r), 2 * Eval(if left then lo else hi, r))
  {
    var a, b, x, y := Eval(lo, r), Eval(hi, r), Eval(low, r), Eval(up, r);
    EvalLinear(low, lo, hi, 1, 1, r);
    EvalLinear(up, lo, hi, u, -u, r);
    CongScale(y, u * a + -u * b, w, Q);
    CongAdd(x, 1 * a + 1 * b, w * y, w * (u * a + -u * b), Q);
    MergeArithmetic(w, u, a, b, left);
    CongTrans(x + w * y, 1 * a + 1 * b + w * (u * a + -u * b), if left then 2 * a else 2 * b, Q);
  }

  ghost predicate Butterflies(lo: seq<int>, hi: seq<int>, lo': seq<int>, hi': seq<int>, z: int) {
    && |lo| == |hi| == |lo'| == |hi'|
    && (forall j | 0 <= j < |lo| :: lo'[j] == lo[j] + Twist(z, hi[j]))
    && (forall j | 0 <= j < |lo| :: hi'[j] == lo[j] - Twist(z, hi[j]))
  }

  lemma ButterflyEntries(lo: seq<int>, hi: seq<int>, lo': seq<int>, hi': seq<int>, z: int)
    requires Butterflies(lo, hi, lo', hi', z)
    ensures Combines(lo', lo, hi, 1, z * MONT_INVERSE) && Combines(hi', lo, hi, 1, -(z * MONT_INVERSE))
  {
    forall j | 0 <= j < |lo|
      ensures Eq(lo'[j], 1 * lo[j] + (z * MONT_INVERSE) * hi[j])
      ensures Eq(hi'[j], 1 * lo[j] + -(z * MONT_INVERSE) * hi[j])
    {
      ButterflyEntry(lo[j], hi[j], z);
    }
  }

  /** A product congruent to t, freed of its two Montgomery factors. */
  lemma Freed(z: int, y: int, t: int, w: int, q: int)
    requires (z * y - t) % Q == 0 && t * (MONT_INVERSE * MONT_INVERSE) - w == q * Q
    ensures Eq((z * MONT_INVERSE) * (y * MONT_INVERSE), w)
  {
    var s := MONT_INVERSE * MONT_INVERSE;
    assert Eq(z * y, t);
    CongScale(z * y, t, s, Q);
    assert (z * MONT_INVERSE) * (y * MONT_INVERSE) == (z * y) * s;
    CongIntro(t * s, w, Q, q);
    CongTrans((z * y) * s, t * s, w, Q);
  }

  lemma Negated(w: int, m: int)
    requires Eq(w * (m * MONT_INVERSE), -1)
    ensures Eq(w * (-m * MONT_INVERSE), 1)
  {
    CongRefl(0, Q);
    CongSub(0, 0, w * (m * MONT_INVERSE), -1, Q);
    assert w * (-m * MONT_INVERSE) == 0 - w * (m * MONT_INVERSE);
  }

  lemma MontgomeryProduct(z: int, h: int)
    ensures Eq(Twist(z, h), (z * MONT_INVERSE) * h)
  {
    var r := Twist(z, h);
    MontgomeryCongruent(z * h);
    CongScale(r * MONT, z * h, MONT_INVERSE, Q);
    assert (z * h) * MONT_INVERSE == (z * MONT_INVERSE) * h;
    CongIntro(r, r * MONT * MONT_INVERSE, Q, -11185 * r);
    CongTrans(r, r * MONT * MONT_INVERSE, (z * MONT_INVERSE) * h, Q);
  }

  lemma ButterflyEntry(lo: int, hi: int, z: int)
    ensures Eq(lo + Twist(z, hi), 1 * lo + (z * MONT_INVERSE) * hi)
    ensures Eq(lo - Twist(z, hi), 1 * lo + -(z * MONT_INVERSE) * hi)
  {
    MontgomeryProduct(z, hi);
    CongRefl(lo, Q);
    CongAdd(lo, lo, Twist(z, hi), (z * MONT_INVERSE) * hi, Q);
    CongSub(lo, lo, Twist(z, hi), (z * MONT_INVERSE) * hi, Q);
    assert -(z * MONT_INVERSE) * hi == -((z * MONT_INVERSE) * hi);
  }

  lemma SquarePower(r: int, m: nat, w: int, v: int)
    requires Eq(Pow(r, m), w) && Eq(w * w, v)
    ensures Eq(Pow(r, 2 * m), v)
  {
    PowAdd(r, m, m);
    CongMul(Pow(r, m), w, Pow(r, m), w, Q);
    CongTrans(Pow(r, 2 * m), w * w, v, Q);
  }

  ghost predicate InverseButterflies(lo: seq<int>, hi: seq<int>, lo': seq<int>, hi': seq<int>, z: int) {
    && |lo| == |hi| == |lo'| == |hi'|
    && (forall j | 0 <= j < |lo| :: lo'[j] == lo[j] + hi[j])
    && (forall j | 0 <= j < |lo| :: hi'[j] == Twist(z, lo[j] - hi[j]))
  }

  lemma InverseButterflyEntries(lo: seq<int>, hi: seq<int>, lo': seq<int>, hi': seq<int>, z: int)
    requires InverseButterflies(lo, hi, lo', hi', z)
    ensures Combines(lo', lo, hi, 1, 1) && Combines(hi', lo, hi, z * MONT_INVERSE, -(z * MONT_INVERSE))
  {
    forall j | 0 <= j < |lo|
      ensures Eq(lo'[j], 1 * lo[j] + 1 * hi[j])
      ensures Eq(hi'[j], (z * MONT_INVERSE) * lo[j] + -(z * MONT_INVERSE) * hi[j])
    {
      CongRefl(lo'[j], Q);
      MontgomeryProduct(z, lo[j] - hi[j]);
      var w := z * MONT_INVERSE;
      assert w * (lo[j] - hi[j]) == w * lo[j] + -w * hi[j];
    }
  }

  /** (a + b) + w * u * (a - b) is 2a when w * u is 1, and 2b when it is -1. */
  lemma MergeArithmetic(w: int, u: int, a: int, b: int, left: bool)
    requires Eq(w * u, if left then 1 else -1)
    ensures Eq(1 * a + 1 * b + w * (u * a + -u * b), if left then 2 * a else 2 * b)
  {
    var d := a - b;
    assert w * (u * a + -u * b) == (w * u) * d by {
      assert u * a + -u * b == u * d;
      MulAssoc(w, u, d);
    }
    CongScale(w * u, if left then 1 else -1, d, Q);
    CongRefl(a + b, Q);
    CongAdd(a + b, a + b, (w * u) * d, (if left then 1 else -1) * d, Q);
  }

  lemma BothHalvesZero(lo: int, hi: int, w: int, u: int)
    requires Eq(lo + w * hi, 0) && Eq(lo - w * hi, 0) && Eq(w * u, 1)
    ensures Eq(lo, 0) && Eq(hi, 0)
  {
    CongAdd(lo + w * hi, 0, lo - w * hi, 0, Q);
    HalfZero(lo);
    CongSub(lo + w * hi, 0, lo - w * hi, 0, Q);
    HalfZero(w * hi);
    CongScale(w * hi, 0, u, Q);
    assert (w * hi) * u == (w * u) * hi;
    CongScale(w * u, 1, hi, Q);
    CongSym((w * u) * hi, 1 * hi, Q);
    CongTrans(hi, (w * u) * hi, 0, Q);
  }

  /** Q is odd. */
  lemma HalfZero(x: int)
    requires Eq(2 * x, 0)
    ensures Eq(x, 0)
  {
    var k := CongElim(2 * x, 0, Q);
    assert x - 0 == (32257 * k - x) * Q;
    CongIntro(x, 0, Q, 32257 * k - x);
  }
}
