/** Selection of the largest sums by compare-and-swap passes. */
module BestM {

  const WORD := 0x1_0000_0000_0000_0000
  const HALF := 0x8000_0000_0000_0000

  predicate U64(x: int) {
    0 <= x < WORD
  }

  lemma WrappedSign(d: int)
    requires -WORD < d < WORD
    ensures d % WORD / HALF == 1 <==> (-HALF <= d < 0 || HALF <= d)
  {
    assert d % WORD == if d < 0 then d + WORD else d;
  }

  // crypto_haetae_minmax_u64: swaps when the top bit of the wrapped difference is set.
  method MinMax(a: int, b: int) returns (x: int, y: int)
    requires U64(a) && U64(b)
    ensures multiset{x, y} == multiset{a, b}
    ensures x <= y <==> -HALF <= b - a < HALF
  {
    WrappedSign(b - a);
    var swap := (b - a) % WORD / HALF == 1;
    x, y := a, b;
    if swap {
      x, y := b, a;
    }
  }

  ghost predicate Small(s: seq<int>) {
    forall i | 0 <= i < |s| :: 0 <= s[i] < HALF
  }

  ghost predicate AllBelow(x: int, s: seq<int>) {
    forall j | 0 <= j < |s| :: x <= s[j]
  }

  lemma ReplaceInMultiset(s: seq<int>, j: nat, y: int)
    requires j < |s|
    ensures multiset(s[j := y]) + multiset{s[j]} == multiset(s) + multiset{y}
  {
    assert s == s[..j] + [s[j]] + s[j + 1..];
    assert s[j := y] == s[..j] + [y] + s[j + 1..];
  }

  /** The pass of a candidate over the kept sums before j; left is what is handed on. */
  ghost predicate Passing(start: seq<int>, s: seq<int>, candidate: int, left: int, j: nat) {
    && |s| == |start| && j <= |s|
    && multiset(s) + multiset{left} == multiset(start) + multiset{candidate}
    && 0 <= left < HALF && Small(s)
    && (forall k | 0 <= k < j :: left <= s[k] && start[k] <= s[k])
    && (forall k | j <= k < |s| :: s[k] == start[k])
  }

  lemma PassStep(start: seq<int>, s: seq<int>, candidate: int, left: int, j: nat, x: int, y: int)
    requires Passing(start, s, candidate, left, j) && j < |s| && multiset{x, y} == multiset{left, s[j]} && x <= y
    ensures Passing(start, s[j := y], candidate, x, j + 1)
  {
    Ordered(left, s[j], x, y);
    ReplaceInMultiset(s, j, y);
    Exchange(multiset(s), multiset(s[j := y]), left, s[j], x, y);
  }

  lemma PassRange(start: seq<int>, s: seq<int>, candidate: int, left: int, j: nat)
    requires Passing(start, s, candidate, left, j) && j < |s|
    ensures U64(left) && U64(s[j]) && -HALF <= s[j] - left < HALF
  {
  }

  lemma PassStart(start: seq<int>, candidate: int)
    requires 0 <= candidate < HALF && Small(start)
    ensures Passing(start, start, candidate, candidate, 0)
  {
  }

  lemma PassEnd(start: seq<int>, s: seq<int>, candidate: int, left: int)
    requires Passing(start, s, candidate, left, |s|)
    ensures |s| == |start| && multiset(s) + multiset{left} == multiset(start) + multiset{candidate}
    ensures AllBelow(left, s) && 0 <= left < HALF && Small(s)
    ensures forall j | 0 <= j < |s| :: start[j] <= s[j]
  {
  }

  // The inner pass: one candidate against all kept sums.
  method Pass(candidate: int, best: array<int>) returns (left: int)
    requires 0 <= candidate < HALF && Small(best[..])
    modifies best
    ensures Passing(old(best[..]), best[..], candidate, left, best.Length)
  {
    hide *;
    left := candidate;
    PassStart(best[..], candidate);
    for j := 0 to best.Length
      invariant Passing(old(best[..]), best[..], candidate, left, j)
    {
      ghost var s := best[..];
      PassRange(old(best[..]), s, candidate, left, j);
      var x, y := MinMax(left, best[j]);
      PassStep(old(best[..]), s, candidate, left, j, x, y);
      left := x;
      best[j] := y;
      assert best[..] == s[j := y];
    }
  }

  lemma Ordered(a: int, b: int, x: int, y: int)
    requires multiset{x, y} == multiset{a, b} && x <= y
    ensures x <= a && x <= b && b <= y && a <= y && ((x == a && y == b) || (x == b && y == a))
  {
    assert x in multiset{a, b} && y in multiset{a, b};
    assert a in multiset{x, y} && b in multiset{x, y};
    if a != b {
      assert multiset{a, b}[a] == 1;
    }
  }

  lemma Exchange(s: multiset<int>, s': multiset<int>, left: int, old_: int, x: int, y: int)
    requires s' + multiset{old_} == s + multiset{y} && ((x == left && y == old_) || (x == old_ && y == left))
    ensures s' + multiset{x} == s + multiset{left}
  {
    if y == old_ {
      assert s' == (s' + multiset{y}) - multiset{y} && s == (s + multiset{y}) - multiset{y};
    }
  }

  /** Every sum that was dropped is at most every sum that was kept. */
  ghost predicate Separated(dropped: seq<int>, best: seq<int>) {
    forall i | 0 <= i < |dropped| :: AllBelow(dropped[i], best)
  }

  lemma StillSeparated(dropped: seq<int>, best: seq<int>, best': seq<int>, left: int)
    requires |best| == |best'| && Separated(dropped, best) && forall j | 0 <= j < |best| :: best[j] <= best'[j]
    requires AllBelow(left, best')
    ensures Separated(dropped + [left], best')
  {
    forall i | 0 <= i < |dropped| + 1
      ensures AllBelow((dropped + [left])[i], best')
    {
      if i < |dropped| {
        assert AllBelow(dropped[i], best);
      }
    }
  }

  /** The selection after the candidates before i. */
  ghost predicate Selected(start: seq<int>, s: seq<int>, best: seq<int>, i: nat) {
    && |best| <= i <= |s| == |start|
    && Small(best) && Small(s) && Separated(s[|best|..i], best)
    && (forall k | i <= k < |s| :: s[k] == start[k])
    && multiset(best) + multiset(s[|best|..i]) == multiset(start[..i])
  }

  lemma SelectedStart(start: seq<int>, best: seq<int>)
    requires |best| <= |start| && Small(start) && best == start[..|best|]
    ensures Selected(start, start, best, |best|)
  {
    assert start[|best|..|best|] == [];
    forall j | 0 <= j < |best|
      ensures 0 <= best[j] < HALF
    {
      assert best[j] == start[j];
    }
  }

  lemma SelectedStep(start: seq<int>, s: seq<int>, best: seq<int>, best': seq<int>, left: int, i: nat)
    requires Selected(start, s, best, i) && i < |s| && |best'| == |best|
    requires multiset(best') + multiset{left} == multiset(best) + multiset{s[i]}
    requires AllBelow(left, best') && 0 <= left < HALF && Small(best')
    requires forall j | 0 <= j < |best| :: best[j] <= best'[j]
    ensures Selected(start, s[i := left], best', i + 1)
  {
    var dropped, s' := s[|best|..i], s[i := left];
    assert s'[|best|..i + 1] == dropped + [left];
    assert start[..i + 1] == start[..i] + [s[i]];
    StillSeparated(dropped, best, best', left);
    Regroup(multiset(best), multiset(best'), multiset(dropped), left, s[i]);
  }

  lemma Regroup(best: multiset<int>, best': multiset<int>, dropped: multiset<int>, left: int, next: int)
    requires best' + multiset{left} == best + multiset{next}
    ensures best' + (dropped + multiset{left}) == (best + dropped) + multiset{next}
  {
    calc {
      best' + (dropped + multiset{left});
      (best' + multiset{left}) + dropped;
      (best + multiset{next}) + dropped;
      (best + dropped) + multiset{next};
    }
  }

  // The selection of crypto_haetae_polyvecmk_sqsing_value.
  method Select(sum: array<int>, best: array<int>)
    requires sum != best && 0 < best.Length <= sum.Length && Small(sum[..])
    modifies sum, best
    ensures multiset(best[..]) + multiset(sum[best.Length..]) == multiset(old(sum[..]))
    ensures forall i, j | best.Length <= i < sum.Length && 0 <= j < best.Length :: sum[i] <= best[j]
    ensures forall j | 0 <= j < best.Length :: 0 <= best[j] < HALF
  {
    hide *;
    var m := best.Length;
    for i := 0 to m
      invariant sum[..] == old(sum[..]) && forall k | 0 <= k < i :: best[k] == sum[k]
    {
      best[i] := sum[i];
    }
    ghost var start := sum[..];
    assert best[..] == start[..m];
    SelectedStart(start, best[..]);
    for i := m to sum.Length
      invariant Selected(start, sum[..], best[..], i)
    {
      ghost var s, kept := sum[..], best[..];
      SelectedRange(start, s, kept, i);
      var left := Pass(sum[i], best);
      PassEnd(kept, best[..], s[i], left);
      sum[i] := left;
      SelectedStep(start, s, kept, best[..], left, i);
      assert sum[..] == s[i := left];
    }
    SelectedEnd(start, sum[..], best[..]);
    assert sum[..][m..] == sum[m..];
    SeparatedEntries(sum[..], best[..]);
    SmallEntries(best[..]);
    ghost var s, kept := sum[..], best[..];
    forall i, j | m <= i < sum.Length && 0 <= j < m
      ensures sum[i] <= best[j]
    {
      assert s[i] <= kept[j];
    }
  }

  lemma SeparatedEntries(s: seq<int>, best: seq<int>)
    requires |best| <= |s| && Separated(s[|best|..], best)
    ensures forall i, j | |best| <= i < |s| && 0 <= j < |best| :: s[i] <= best[j]
  {
    forall i, j | |best| <= i < |s| && 0 <= j < |best|
      ensures s[i] <= best[j]
    {
      assert AllBelow(s[|best|..][i - |best|], best);
    }
  }

  lemma SmallEntries(best: seq<int>)
    requires Small(best)
    ensures forall j | 0 <= j < |best| :: 0 <= best[j] < HALF
  {
  }

  lemma SelectedRange(start: seq<int>, s: seq<int>, best: seq<int>, i: nat)
    requires Selected(start, s, best, i) && i < |s|
    ensures Small(best) && 0 <= s[i] < HALF
  {
  }

  lemma SelectedEnd(start: seq<int>, s: seq<int>, best: seq<int>)
    requires Selected(start, s, best, |s|)
    ensures multiset(best) + multiset(s[|best|..]) == multiset(start) && Separated(s[|best|..], best) && Small(best)
  {
    assert start[..|start|] == start && s[|best|..|s|] == s[|best|..];
  }

  // The minimum of the kept sums.
  method Minimum(best: array<int>) returns (minimum: int)
    requires 0 < best.Length && Small(best[..])
    ensures minimum in best[..] && forall j | 0 <= j < best.Length :: minimum <= best[j]
  {
    minimum := best[0];
    for i := 1 to best.Length
      invariant minimum in best[..i] && 0 <= minimum < HALF && forall k | 0 <= k < i :: minimum <= best[k]
    {
      var candidate := best[i];
      var x, y := MinMax(minimum, candidate);
      Ordered(minimum, candidate, x, y);
      assert best[..i + 1] == best[..i] + [best[i]];
      minimum := x;
    }
    assert best[..best.Length] == best[..];
  }
}
