/** The transforms as loops over the coefficient array, and multiplication of polynomials through them. */
module NttCode {
  import opened Arith
  import opened Reduce
  import opened ZetaTable
  import opened Ntt

  const F := -29720 // MONT^2 / 256

  /** The shipped table. */
  function Haetae(): Transform {
    Transform(seq(N, k requires 0 <= k < N => Zeta(k)))
  }

  lemma HaetaeValid()
    ensures Haetae().Valid()
  {
    var t := Haetae();
    forall k | 1 <= k < 256
      ensures t.NodeFacts(k)
    {
      ShippedFact(k);
      assert t.zetas[k] == Zeta(k) && t.zetas[k / 2] == Zeta(k / 2) && t.zetas[Mirror(k)] == Zeta(Mirror(k));
    }
  }

  // ---------- sizes of intermediate values ----------

  ghost predicate Bounded(s: seq<int>, bound: int) {
    forall j | 0 <= j < |s| :: -bound <= s[j] <= bound
  }

  /** Products with a table constant stay in the range of Montgomery reduction. */
  lemma ReducedProduct(z: int, h: int, bound: int)
    requires -32144 <= z <= 32144 && -bound <= h <= bound && bound <= 256 * (Q - 1)
    ensures -Q < Twist(z, h) < Q
  {
    var x, y := if z < 0 then -z else z, if h < 0 then -h else h;
    MulBound(x, 32144, y, bound);
    assert z * h == x * y || z * h == -(x * y);
    MontgomeryRange(z * h);
  }

  lemma ButterflyBound(lo: seq<int>, hi: seq<int>, lo': seq<int>, hi': seq<int>, z: int, bound: int)
    requires Butterflies(lo, hi, lo', hi', z) && -32144 <= z <= 32144
    requires Bounded(lo, bound) && Bounded(hi, bound) && bound <= 8 * (Q - 1)
    ensures Bounded(lo', bound + Q - 1) && Bounded(hi', bound + Q - 1)
  {
    forall j | 0 <= j < |lo|
      ensures -(bound + Q - 1) <= lo'[j] <= bound + Q - 1 && -(bound + Q - 1) <= hi'[j] <= bound + Q - 1
    {
      ReducedProduct(z, hi[j], bound);
    }
  }

  lemma InverseButterflyBound(lo: seq<int>, hi: seq<int>, lo': seq<int>, hi': seq<int>, z: int, bound: int)
    requires InverseButterflies(lo, hi, lo', hi', z) && -32144 <= z <= 32144
    requires Bounded(lo, bound) && Bounded(hi, bound) && Q - 1 <= bound <= 128 * (Q - 1)
    ensures Bounded(lo', 2 * bound) && Bounded(hi', 2 * bound)
  {
    forall j | 0 <= j < |lo|
      ensures -2 * bound <= lo'[j] <= 2 * bound && -2 * bound <= hi'[j] <= 2 * bound
    {
      ReducedProduct(z, lo[j] - hi[j], 2 * bound);
    }
  }

  // ---------- the forward transform ----------

  /** Layers a block has been through, plus one. */
  function Depth(k: nat): nat {
    if k <= 1 then 1 else 1 + Depth(k / 2)
  }

  lemma {:induction false} DepthBelow(k: nat, n: nat)
    requires 1 <= n && k < Pow(2, n)
    ensures Depth(k) <= n
  {
    assert Pow(2, 1) == 2;
    if k > 1 {
      DepthBelow(k / 2, n - 1);
    }
  }

  lemma DepthBound(k: nat)
    requires k < 512
    ensures k < 256 ==> Depth(k) <= 8
    ensures Depth(k) <= 9
  {
    Pow2Values();
    assert Pow(2, 9) == 2 * Pow(2, 8);
    DepthBelow(k, 9);
    if k < 256 {
      DepthBelow(k, 8);
    }
  }

  ghost predicate ForwardOk(t: Transform, s: seq<int>, v: seq<int>, k: nat)
    requires t.Valid() && |s| == |v| == N && 1 <= k < 512
  {
    t.Matches(Block(s, k), v, 1, k) && Bounded(Block(s, k), Depth(k) * (Q - 1))
  }

  /** Every block of the frontier k, ..., 2k - 1 is as it should be. */
  ghost predicate Frontier(t: Transform, s: seq<int>, v: seq<int>, k: nat)
    requires t.Valid() && |s| == |v| == N && 1 <= k <= 256
  {
    forall i | k <= i < 2 * k :: ForwardOk(t, s, v, i)
  }

  /** s' is s except between start and end. */
  ghost predicate Elsewhere(s: seq<int>, s': seq<int>, start: nat, end: nat) {
    |s| == |s'| && forall i | 0 <= i < |s| && !(start <= i < end) :: s'[i] == s[i]
  }

  lemma BlockUnchanged(s: seq<int>, s': seq<int>, k: nat, start: nat, end: nat)
    requires |s| == N && 1 <= k < 512 && Elsewhere(s, s', start, end)
    requires Start(k) + Size(k) <= start || end <= Start(k)
    ensures Block(s, k) == Block(s', k)
  {
    BlockInRange(k);
    var b, n := Start(k), Size(k);
    assert s[b..b + n] == s'[b..b + n];
  }

  /** The halves of a node's block are its children's blocks. */
  lemma HalvesOfBlock(s: seq<int>, k: nat)
    requires |s| == N && 1 <= k < 256
    ensures var m := Size(2 * k); Size(k) == 2 * m && Size(2 * k + 1) == m
    ensures Block(s, k)[..Size(2 * k)] == Block(s, 2 * k) && Block(s, k)[Size(2 * k)..] == Block(s, 2 * k + 1)
  {
    Children(k);
  }

  lemma SmallEntry(t: Transform, k: nat)
    requires t.Valid() && 1 <= k < 256 && t.NodeFacts(k)
    ensures -32144 <= t.zetas[k] <= 32144
  {
  }

  lemma DepthOfChildren(k: nat)
    requires 1 <= k
    ensures Depth(2 * k) == Depth(k) + 1 && Depth(2 * k + 1) == Depth(k) + 1
    ensures Depth(2 * k) * (Q - 1) == Depth(k) * (Q - 1) + Q - 1
  {
  }

  lemma HalvesBounded(whole: seq<int>, m: nat, bound: int)
    requires m <= |whole| && Bounded(whole, bound)
    ensures Bounded(whole[..m], bound) && Bounded(whole[m..], bound)
  {
  }

  lemma ForwardChildren(t: Transform, s: seq<int>, s': seq<int>, v: seq<int>, k: nat)
    requires t.Valid() && |s| == |s'| == |v| == N && 1 <= k < 256 && ForwardOk(t, s, v, k)
    requires Butterflies(Block(s, 2 * k), Block(s, 2 * k + 1), Block(s', 2 * k), Block(s', 2 * k + 1), t.zetas[k])
    ensures ForwardOk(t, s', v, 2 * k) && ForwardOk(t, s', v, 2 * k + 1)
  {
    hide Twist, Start, Size, Block, Butterflies, Transform.Matches, Fact, Depth;
    HalvesOfBlock(s, k);
    var whole, bound := Block(s, k), Depth(k) * (Q - 1);
    var lo, hi := Block(s, 2 * k), Block(s, 2 * k + 1);
    t.ForwardNode(whole, Block(s', 2 * k), Block(s', 2 * k + 1), v, 1, k);
    assert t.NodeFacts(k);
    SmallEntry(t, k);
    DepthBound(k);
    DepthOfChildren(k);
    HalvesBounded(whole, Size(2 * k), bound);
    ButterflyBound(lo, hi, Block(s', 2 * k), Block(s', 2 * k + 1), t.zetas[k], bound);
  }

  lemma ForwardOkUnchanged(t: Transform, s: seq<int>, s': seq<int>, v: seq<int>, k: nat, start: nat, end: nat)
    requires t.Valid() && |s| == |s'| == |v| == N && 1 <= k < 512 && ForwardOk(t, s, v, k)
    requires Elsewhere(s, s', start, end) && (Start(k) + Size(k) <= start || end <= Start(k))
    ensures ForwardOk(t, s', v, k)
  {
    BlockUnchanged(s, s', k, start, end);
  }

  /** Processing node k moves the frontier on by one node. */
  lemma FrontierStep(t: Transform, s: seq<int>, s': seq<int>, v: seq<int>, k: nat)
    requires t.Valid() && |s| == |s'| == |v| == N && 1 <= k < 256 && Frontier(t, s, v, k)
    requires Elsewhere(s, s', Start(k), Start(k) + Size(k))
    requires Butterflies(Block(s, 2 * k), Block(s, 2 * k + 1), Block(s', 2 * k), Block(s', 2 * k + 1), t.zetas[k])
    ensures Frontier(t, s', v, k + 1)
  {
    assert ForwardOk(t, s, v, k);
    ForwardChildren(t, s, s', v, k);
    forall i | k + 1 <= i < 2 * (k + 1)
      ensures ForwardOk(t, s', v, i)
    {
      if i < 2 * k {
        assert ForwardOk(t, s, v, i);
        FrontierDisjoint(k, i);
        ForwardOkUnchanged(t, s, s', v, i, Start(k), Start(k) + Size(k));
      } else {
        assert i == 2 * k || i == 2 * k + 1;
      }
    }
  }

  /** The array after the butterflies of the block at start. */
  ghost function ForwardImage(s: seq<int>, start: nat, len: nat, zeta: int): (s': seq<int>)
    requires start + 2 * len <= |s|
    ensures |s'| == |s|
  {
    seq(|s|, i requires 0 <= i < |s| =>
      if start <= i < start + len then s[i] + Twist(zeta, s[i + len])
      else if start + len <= i < start + 2 * len then s[i - len] - Twist(zeta, s[i])
      else s[i])
  }

  // The innermost loop: one block of butterflies.
  method ForwardBlock(a: array<int>, start: nat, len: nat, zeta: int)
    requires start + 2 * len <= a.Length
    modifies a
    ensures a[..] == ForwardImage(old(a[..]), start, len, zeta)
  {
    hide Twist;
    ghost var s := a[..];
    ghost var s' := ForwardImage(s, start, len, zeta);
    var j := start;
    while j < start + len
      invariant start <= j <= start + len
      invariant forall i | 0 <= i < a.Length && (start <= i < j || start + len <= i < j + len) :: a[i] == s'[i]
      invariant forall i | 0 <= i < a.Length && !(start <= i < j) && !(start + len <= i < j + len) :: a[i] == s[i]
    {
      var t := Twist(zeta, a[j + len]);
      a[j + len] := a[j] - t;
      a[j] := a[j] + t;
      j := j + 1;
    }
  }

  lemma ForwardImageIs(s: seq<int>, s': seq<int>, start: nat, len: nat, zeta: int)
    requires start + 2 * len <= |s| && s' == ForwardImage(s, start, len, zeta)
    ensures Butterflies(s[start..start + len], s[start + len..start + 2 * len],
                        s'[start..start + len], s'[start + len..start + 2 * len], zeta)
    ensures Elsewhere(s, s', start, start + 2 * len)
  {
    hide Twist;
    var lo, hi := s[start..start + len], s[start + len..start + 2 * len];
    var lo', hi' := s'[start..start + len], s'[start + len..start + 2 * len];
    forall j | 0 <= j < len
      ensures lo'[j] == lo[j] + Twist(zeta, hi[j]) && hi'[j] == lo[j] - Twist(zeta, hi[j])
    {
      assert lo'[j] == s'[start + j] && hi'[j] == s'[start + len + j];
    }
  }

  /** After node k of the level that starts at node base, the next block starts at start. */
  ghost predicate Position(base: nat, k: nat, len: nat, start: nat) {
    && 1 <= base <= k + 1 <= 2 * base <= 256
    && if k + 1 < 2 * base then Base(k + 1) == base && start == Start(k + 1) && Size(k + 1) == 2 * len
       else start == N && LevelHead(k + 1, len)
  }

  /** Node k is the first of its level and len is half the length its blocks' parents have. */
  ghost predicate LevelHead(k: nat, len: nat) {
    1 <= k <= 256 && Base(k) == k && Start(k) == 0 && Size(k) == len
  }

  lemma TableLength(t: Transform)
    requires t.Valid()
    ensures |t.zetas| == N == 256
  {
  }

  lemma PositionStart(base: nat, len: nat)
    requires LevelHead(base, len) && base < 256
    ensures Base(base) == base && 0 < len && Position(base, base - 1, len / 2, 0)
  {
    Levels(base);
  }

  lemma PositionStep(base: nat, k: nat, len: nat, start: nat)
    requires Position(base, k, len, start) && start < N
    ensures k + 1 < 256 && Size(k + 1) == 2 * len && start == Start(k + 1) && start + 2 * len <= N
    ensures Position(base, k + 1, len, start + 2 * len)
  {
    Levels(k + 1);
    Levels(k + 2);
  }

  lemma PositionEnd(base: nat, k: nat, len: nat, start: nat)
    requires Position(base, k, len, start) && N <= start
    ensures k + 1 == 2 * base && LevelHead(k + 1, len)
  {
    Levels(k + 1);
  }

  /** One round of the middle loop. */
  lemma LayerStep(t: Transform, s: seq<int>, s': seq<int>, v: seq<int>, k: nat, len: nat, start: nat)
    requires t.Valid() && |s| == |s'| == |v| == N && 1 <= k < 256 && Frontier(t, s, v, k)
    requires Size(k) == 2 * len && Start(k) == start && start + 2 * len <= N
    requires s' == ForwardImage(s, start, len, t.zetas[k])
    ensures Frontier(t, s', v, k + 1)
  {
    hide *;
    TableLength(t);
    ForwardImageIs(s, s', start, len, t.zetas[k]);
    BlocksAre(s, k, len);
    BlocksAre(s', k, len);
    FrontierStep(t, s, s', v, k);
  }

  lemma BlocksAre(s: seq<int>, k: nat, len: nat)
    requires |s| == N && 1 <= k < 256 && Size(k) == 2 * len
    ensures Start(k) + 2 * len <= N && Size(2 * k) == len && Size(2 * k + 1) == len
    ensures Block(s, 2 * k) == s[Start(k)..Start(k) + len]
    ensures Block(s, 2 * k + 1) == s[Start(k) + len..Start(k) + 2 * len]
  {
    Children(k);
  }

  // The middle loop: the blocks of one level.
  method ForwardLayer(a: array<int>, t: Transform, base: nat, len: nat, ghost v: seq<int>) returns (k: nat)
    requires t.Valid() && a.Length == N == |v| && base < 256 && LevelHead(base, 2 * len) && Frontier(t, a[..], v, base)
    modifies a
    ensures k < 256 && LevelHead(k + 1, len) && base <= k && Frontier(t, a[..], v, k + 1)
  {
    k := base - 1;
    var start: nat := 0;
    PositionStart(base, 2 * len);
    while start < N
      invariant Position(base, k, len, start) && Frontier(t, a[..], v, k + 1)
      decreases 2 * base - k
    {
      PositionStep(base, k, len, start);
      k := k + 1;
      ghost var s := a[..];
      ForwardBlock(a, start, len, t.zetas[k]);
      LayerStep(t, s, a[..], v, k, len, start);
      start := start + 2 * len;
    }
    PositionEnd(base, k, len, start);
  }

  // crypto_haetae_ntt.
  method ForwardNtt(a: array<int>, t: Transform)
    requires t.Valid() && a.Length == N && Bounded(a[..], Q - 1)
    modifies a
    ensures t.IsTransform(old(a[..]), a[..]) && Bounded(a[..], 9 * (Q - 1))
  {
    ghost var v := t.Values(a[..]);
    FrontierStart(t, a[..], v);
    var k: nat := 0;
    var len: nat := 128;
    while len > 0
      invariant k < 256 && LevelHead(k + 1, if len == 0 then 1 else 2 * len) && Frontier(t, a[..], v, k + 1)
      decreases len
    {
      LevelSize(k + 1);
      k := ForwardLayer(a, t, k + 1, len, v);
      LevelSize(k + 1);
      len := len / 2;
    }
    LevelSize(k + 1);
    FrontierEnd(t, old(a[..]), a[..]);
  }

  lemma LevelSize(k: nat)
    requires 1 <= k <= 256 && Base(k) == k
    ensures Size(k) == 1 <==> k == 256
    ensures k < 256 ==> Size(k) % 2 == 0 && 2 <= Size(k)
  {
    Levels(k);
  }

  lemma FrontierStart(t: Transform, s: seq<int>, v: seq<int>)
    requires t.Valid() && |s| == N && Bounded(s, Q - 1) && v == t.Values(s)
    ensures Frontier(t, s, v, 1)
  {
    assert Block(s, 1) == s;
    forall i | 0 <= i < N
      ensures Eq(Eval(s, t.Root(i)), 1 * v[i])
    {
      CongRefl(v[i], Q);
    }
    assert ForwardOk(t, s, v, 1);
  }

  lemma FrontierEnd(t: Transform, a: seq<int>, s: seq<int>)
    requires t.Valid() && |a| == |s| == N && Frontier(t, s, t.Values(a), 256)
    ensures t.IsTransform(a, s) && Bounded(s, 9 * (Q - 1))
  {
    forall i | 0 <= i < N
      ensures Eq(s[i], Eval(a, t.Root(i))) && -9 * (Q - 1) <= s[i] <= 9 * (Q - 1)
    {
      var k := N + i;
      assert ForwardOk(t, s, t.Values(a), k);
      Leaves(k);
      DepthBound(k);
      EvalSingle(Block(s, k), t.Root(i));
      assert Block(s, k)[0] == s[i];
    }
  }

  // ---------- the inverse transform ----------

  ghost predicate InverseOk(t: Transform, s: seq<int>, v: seq<int>, k: nat)
    requires t.Valid() && |s| == |v| == N && 1 <= k < 512
  {
    t.Matches(Block(s, k), v, Size(k), k) && Bounded(Block(s, k), Size(k) * (Q - 1))
  }

  /** In the level that starts at base, the nodes before k are merged and the children of the others are waiting. */
  ghost predicate Merging(t: Transform, s: seq<int>, v: seq<int>, base: nat, k: nat)
    requires t.Valid() && |s| == |v| == N && 1 <= base <= k <= 2 * base <= 256
  {
    && (forall i | base <= i < k :: InverseOk(t, s, v, i))
    && (forall i | 2 * k <= i < 4 * base :: InverseOk(t, s, v, i))
  }

  lemma SameLevelDisjoint(k: nat, i: nat)
    requires 1 <= k < 512 && 1 <= i < 512 && k != i && Base(k) == Base(i)
    ensures Start(i) + Size(i) <= Start(k) || Start(k) + Size(k) <= Start(i)
  {
    Levels(k);
    Levels(i);
  }

  /** The blocks that merging node k leaves alone do not meet its own. */
  lemma MergingDisjoint(base: nat, k: nat, i: nat)
    requires 1 <= base <= k < 2 * base <= 256 && Base(base) == base
    requires base <= i < k || 2 * (k + 1) <= i < 4 * base
    ensures Start(i) + Size(i) <= Start(k) || Start(k) + Size(k) <= Start(i)
  {
    if i < k {
      SameLevelDisjoint(k, i);
    } else {
      SameLevelDisjoint(k, i / 2);
      Children(i / 2);
    }
  }

  lemma MergedBound(lo: seq<int>, hi: seq<int>, whole: seq<int>, z: int, size: nat)
    requires |whole| == 2 * |lo| && InverseButterflies(lo, hi, whole[..|lo|], whole[|lo|..], z) && -32144 <= z <= 32144
    requires Bounded(lo, size * (Q - 1)) && Bounded(hi, size * (Q - 1)) && 1 <= size <= 128
    ensures Bounded(whole, 2 * size * (Q - 1))
  {
    InverseButterflyBound(lo, hi, whole[..|lo|], whole[|lo|..], z, size * (Q - 1));
    forall j | 0 <= j < |whole|
      ensures -(2 * size * (Q - 1)) <= whole[j] <= 2 * size * (Q - 1)
    {
      assert whole[j] == if j < |lo| then whole[..|lo|][j] else whole[|lo|..][j - |lo|];
    }
  }

  lemma SizeBound(k: nat)
    requires 1 <= k < 256
    ensures 1 <= Size(2 * k) <= 128 && Size(2 * k + 1) == Size(2 * k) && Size(k) == 2 * Size(2 * k)
  {
    Levels(2 * k);
    Children(k);
  }

  lemma InverseParent(t: Transform, s: seq<int>, s': seq<int>, v: seq<int>, k: nat)
    requires t.Valid() && |s| == |s'| == |v| == N && 1 <= k < 256
    requires InverseOk(t, s, v, 2 * k) && InverseOk(t, s, v, 2 * k + 1)
    requires InverseButterflies(Block(s, 2 * k), Block(s, 2 * k + 1), Block(s', 2 * k), Block(s', 2 * k + 1),
                                -t.zetas[Mirror(k)])
    ensures InverseOk(t, s', v, k)
  {
    HalvesOfBlock(s', k);
    SizeBound(k);
    var lo, hi, whole := Block(s, 2 * k), Block(s, 2 * k + 1), Block(s', k);
    t.InverseNode(lo, hi, whole, v, Size(2 * k), k);
    assert t.NodeFacts(Mirror(k));
    MergedBound(lo, hi, whole, -t.zetas[Mirror(k)], Size(2 * k));
  }

  lemma InverseOkUnchanged(t: Transform, s: seq<int>, s': seq<int>, v: seq<int>, k: nat, start: nat, end: nat)
    requires t.Valid() && |s| == |s'| == |v| == N && 1 <= k < 512 && InverseOk(t, s, v, k)
    requires Elsewhere(s, s', start, end) && (Start(k) + Size(k) <= start || end <= Start(k))
    ensures InverseOk(t, s', v, k)
  {
    BlockUnchanged(s, s', k, start, end);
  }

  lemma MergingStep(t: Transform, s: seq<int>, s': seq<int>, v: seq<int>, base: nat, k: nat)
    requires t.Valid() && |s| == |s'| == |v| == N && 1 <= base <= k < 2 * base <= 256 && Base(base) == base
    requires Merging(t, s, v, base, k) && InverseOk(t, s', v, k) && Elsewhere(s, s', Start(k), Start(k) + Size(k))
    ensures Merging(t, s', v, base, k + 1)
  {
    hide InverseOk, Elsewhere, Start, Size, Base;
    forall i | base <= i < k || 2 * (k + 1) <= i < 4 * base
      ensures InverseOk(t, s', v, i)
    {
      assert InverseOk(t, s, v, i);
      MergingDisjoint(base, k, i);
      InverseOkUnchanged(t, s, s', v, i, Start(k), Start(k) + Size(k));
    }
  }

  /** One round of the middle loop. */
  lemma InverseStep(t: Transform, s: seq<int>, s': seq<int>, v: seq<int>, base: nat, k: nat, len: nat, start: nat)
    requires t.Valid() && |s| == |s'| == |v| == N && 1 <= base <= k < 2 * base <= 256 && Base(base) == base
    requires Merging(t, s, v, base, k)
    requires Size(k) == 2 * len && Start(k) == start && start + 2 * len <= N
    requires Elsewhere(s, s', start, start + 2 * len)
    requires InverseButterflies(s[start..start + len], s[start + len..start + 2 * len],
                                s'[start..start + len], s'[start + len..start + 2 * len], -t.zetas[Mirror(k)])
    ensures Merging(t, s', v, base, k + 1)
  {
    hide InverseOk, InverseButterflies, Elsewhere, Start, Size, Base, Block;
    BlocksAre(s, k, len);
    BlocksAre(s', k, len);
    assert InverseOk(t, s, v, 2 * k) && InverseOk(t, s, v, 2 * k + 1);
    InverseParent(t, s, s', v, k);
    MergingStep(t, s, s', v, base, k);
  }

  /** The array after the inverse butterflies of the block at start. */
  ghost function InverseImage(s: seq<int>, start: nat, len: nat, zeta: int): (s': seq<int>)
    requires start + 2 * len <= |s|
    ensures |s'| == |s|
  {
    seq(|s|, i requires 0 <= i < |s| =>
      if start <= i < start + len then s[i] + s[i + len]
      else if start + len <= i < start + 2 * len then Twist(zeta, s[i - len] - s[i])
      else s[i])
  }

  // The innermost loop: one block of inverse butterflies.
  method InverseBlock(a: array<int>, start: nat, len: nat, zeta: int)
    requires start + 2 * len <= a.Length
    modifies a
    ensures a[..] == InverseImage(old(a[..]), start, len, zeta)
  {
    hide Twist;
    ghost var s := a[..];
    ghost var s' := InverseImage(s, start, len, zeta);
    var j := start;
    while j < start + len
      invariant start <= j <= start + len
      invariant forall i | 0 <= i < a.Length && (start <= i < j || start + len <= i < j + len) :: a[i] == s'[i]
      invariant forall i | 0 <= i < a.Length && !(start <= i < j) && !(start + len <= i < j + len) :: a[i] == s[i]
    {
      var t := a[j];
      a[j] := t + a[j + len];
      a[j + len] := t - a[j + len];
      a[j + len] := Twist(zeta, a[j + len]);
      j := j + 1;
    }
  }

  lemma InverseImageIs(s: seq<int>, s': seq<int>, start: nat, len: nat, zeta: int)
    requires start + 2 * len <= |s| && s' == InverseImage(s, start, len, zeta)
    ensures InverseButterflies(s[start..start + len], s[start + len..start + 2 * len],
                               s'[start..start + len], s'[start + len..start + 2 * len], zeta)
    ensures Elsewhere(s, s', start, start + 2 * len)
  {
    hide Twist;
    var lo, hi := s[start..start + len], s[start + len..start + 2 * len];
    var lo', hi' := s'[start..start + len], s'[start + len..start + 2 * len];
    forall j | 0 <= j < len
      ensures lo'[j] == lo[j] + hi[j] && hi'[j] == Twist(zeta, lo[j] - hi[j])
    {
      assert lo'[j] == s'[start + j] && hi'[j] == s'[start + len + j];
    }
  }

  /** One round of the middle loop; the code's counter k stands for node 3 * base - k. */
  lemma InverseRound(t: Transform, s: seq<int>, s': seq<int>, v: seq<int>, base: nat, node: nat, len: nat, start: nat)
    requires t.Valid() && |s| == |s'| == |v| == N && 1 <= base <= node < 2 * base <= 256 && Base(base) == base
    requires Position(base, node - 1, len, start) && start < N && start + 2 * len <= N && Merging(t, s, v, base, node)
    requires s' == InverseImage(s, start, len, -t.zetas[3 * base - node - 1])
    ensures Merging(t, s', v, base, node + 1)
  {
    hide *;
    TableLength(t);
    PositionStep(base, node - 1, len, start);
    MirrorIs(base, node);
    InverseImageIs(s, s', start, len, -t.zetas[3 * base - node - 1]);
    InverseStep(t, s, s', v, base, node, len, start);
  }

  lemma PositionRange(base: nat, k: nat, len: nat, start: nat)
    requires Position(base, k, len, start) && start < N
    ensures base <= k + 1 < 2 * base && start + 2 * len <= N && Position(base, k + 1, len, start + 2 * len)
  {
    PositionStep(base, k, len, start);
  }

  // The middle loop: the blocks of one level; k counts the table backwards.
  method InverseLayer(a: array<int>, t: Transform, k0: nat, len: nat, ghost v: seq<int>) returns (k: nat)
    requires t.Valid() && a.Length == N == |v| && 2 <= k0 <= 256 && k0 % 2 == 0
    requires LevelHead(k0 / 2, 2 * len) && Merging(t, a[..], v, k0 / 2, k0 / 2)
    modifies a
    ensures k == k0 / 2 && Merging(t, a[..], v, k, k0)
  {
    hide *;
    ghost var base, node := k0 / 2, k0 / 2;
    TableLength(t);
    k := k0;
    var start: nat := 0;
    PositionStart(base, 2 * len);
    while start < N
      invariant base <= node <= 2 * base && node + k == 3 * base
      invariant Position(base, node - 1, len, start) && Merging(t, a[..], v, base, node)
      decreases k
    {
      PositionRange(base, node - 1, len, start);
      k := k - 1;
      ghost var s := a[..];
      InverseBlock(a, start, len, -t.zetas[k]);
      InverseRound(t, s, a[..], v, base, node, len, start);
      start := start + 2 * len;
      node := node + 1;
    }
    PositionEnd(base, node - 1, len, start);
  }

  lemma MirrorIs(base: nat, k: nat)
    requires 1 <= base <= k < 2 * base <= 256 && Base(base) == base
    ensures Mirror(k) == 3 * base - 1 - k
  {
  }

  // crypto_haetae_invntt_tomont.
  method InverseNtt(a: array<int>, t: Transform)
    requires t.Valid() && a.Length == N && Bounded(a[..], Q - 1)
    modifies a
    ensures forall i | 0 <= i < N :: Eq(Eval(a[..], t.Root(i)), MONT * old(a[i]))
    ensures Bounded(a[..], Q - 1)
  {
    ghost var v := a[..];
    MergingStart(t, v);
    var k: nat := 256;
    var len: nat := 1;
    while len < N
      invariant 1 <= k <= 256 && len <= 256 && LevelHead(k, len)
      invariant if k == 1 then InverseOk(t, a[..], v, 1) else k % 2 == 0 && Merging(t, a[..], v, k / 2, k / 2)
      decreases k
    {
      LevelAbove(k, len);
      k := InverseLayer(a, t, k, len, v);
      MergingNext(t, a[..], v, k, len);
      len := len * 2;
    }
    LevelAbove(k, len);
    ghost var s := a[..];
    ScaleAll(a);
    InverseEnd(t, s, a[..], v);
  }

  lemma LevelAbove(k: nat, len: nat)
    requires LevelHead(k, len)
    ensures 1 <= len <= N
    ensures k == 1 <==> len == N
    ensures k > 1 ==> k % 2 == 0 && LevelHead(k / 2, 2 * len)
  {
    Levels(k);
    if k > 1 {
      Levels(k / 2);
    }
  }

  lemma MergingStart(t: Transform, v: seq<int>)
    requires t.Valid() && |v| == N && Bounded(v, Q - 1)
    ensures Merging(t, v, v, 128, 128) && LevelHead(256, 1)
  {
    Levels(256);
    forall k | 256 <= k < 512
      ensures InverseOk(t, v, v, k)
    {
      LeafOk(t, v, k);
    }
  }

  lemma LeafOk(t: Transform, v: seq<int>, k: nat)
    requires t.Valid() && |v| == N && 256 <= k < 512 && Bounded(v, Q - 1)
    ensures InverseOk(t, v, v, k)
  {
    Leaves(k);
    var i := k - N;
    assert Block(v, k) == [v[i]];
    EvalSingle([v[i]], t.Root(i));
    CongRefl(v[i], Q);
  }

  /** A finished level is the waiting part of the next one. */
  lemma MergingNext(t: Transform, s: seq<int>, v: seq<int>, k: nat, len: nat)
    requires t.Valid() && |s| == |v| == N && 1 <= k <= 128 && Merging(t, s, v, k, 2 * k) && LevelHead(k, 2 * len)
    ensures if k == 1 then InverseOk(t, s, v, 1) else k % 2 == 0 && Merging(t, s, v, k / 2, k / 2)
  {
    LevelAbove(k, 2 * len);
    if k == 1 {
      assert InverseOk(t, s, v, 1);
    } else {
      forall i | k <= i < 2 * k
        ensures InverseOk(t, s, v, i)
      {
      }
    }
  }

  // The last loop of the inverse transform.
  method ScaleAll(a: array<int>)
    requires a.Length == N
    modifies a
    ensures forall j | 0 <= j < N :: a[j] == Twist(F, old(a[j]))
  {
    for j := 0 to N
      invariant forall i | 0 <= i < j :: a[i] == Twist(F, old(a[i]))
      invariant forall i | j <= i < N :: a[i] == old(a[i])
    {
      a[j] := Twist(F, a[j]);
    }
  }

  lemma InverseEnd(t: Transform, s: seq<int>, out: seq<int>, v: seq<int>)
    requires t.Valid() && |s| == |out| == |v| == N && InverseOk(t, s, v, 1)
    requires forall j | 0 <= j < N :: out[j] == Twist(F, s[j])
    ensures forall i | 0 <= i < N :: Eq(Eval(out, t.Root(i)), MONT * v[i])
    ensures Bounded(out, Q - 1)
  {
    assert Block(s, 1) == s;
    var c := F * MONT_INVERSE;
    forall j | 0 <= j < N
      ensures Eq(out[j], c * s[j] + 0 * s[j]) && -(Q - 1) <= out[j] <= Q - 1
    {
      MontgomeryProduct(F, s[j]);
      ReducedProduct(F, s[j], 256 * (Q - 1));
    }
    forall i | 0 <= i < N
      ensures Eq(Eval(out, t.Root(i)), MONT * v[i])
    {
      var r := t.Root(i);
      EvalLinear(out, s, s, c, 0, r);
      ScaledBack(Eval(out, r), Eval(s, r), v[i]);
    }
  }

  /** F * 2^-32 * 256 is MONT modulo Q. */
  lemma ScaledBack(x: int, y: int, v: int)
    requires Eq(x, F * MONT_INVERSE * y + 0 * y) && Eq(y, 256 * v)
    ensures Eq(x, MONT * v)
  {
    var c := F * MONT_INVERSE;
    CongScale(y, 256 * v, c, Q);
    CongTrans(x, c * y, c * (256 * v), Q);
    CongIntro(c * (256 * v), MONT * v, Q, -5942257 * v);
    CongTrans(x, c * (256 * v), MONT * v, Q);
  }
}
