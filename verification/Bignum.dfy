/** Arbitrary-precision naturals that grow in place: LiberaCBignum. */
module Bignums {
  import opened Arith
  import opened Limbs
  import opened Karatsuba

  class Bignum {
    var limbs: array<word> // its length is the capacity
    var length: nat

    ghost predicate Valid()
      reads this
    {
      length <= limbs.Length
    }

    ghost function Words(): (s: seq<word>)
      requires Valid()
      reads this, limbs
      ensures |s| == length
    {
      limbs[..length]
    }

    /** No leading zero limb. */
    ghost predicate Normalized()
      requires Valid()
      reads this, limbs
    {
      length == 0 || limbs[length - 1] != 0
    }

    // crypto_bignum_init.
    constructor ()
      ensures Valid() && length == 0 && fresh(limbs)
    {
      limbs := new word[0];
      length := 0;
    }

    // bignum_reserve.
    method Reserve(capacity: nat)
      requires Valid()
      modifies this`limbs
      ensures Valid() && capacity <= limbs.Length && Words() == old(Words())
      ensures if capacity <= old(limbs.Length) then limbs == old(limbs) else fresh(limbs)
    {
      if capacity <= limbs.Length {
        return;
      }
      var p := new word[capacity](i => 0);
      var q := limbs;
      for i := 0 to q.Length
        invariant q == limbs && forall j | 0 <= j < i :: p[j] == q[j]
      {
        p[i] := q[i];
      }
      limbs := p;
    }

    // bignum_normalize.
    method Normalize()
      requires Valid()
      modifies this`length
      ensures Valid() && Normalized() && length <= old(length)
      ensures Value(Words()) == old(Value(Words()))
    {
      hide Value, Weight;
      while length != 0 && limbs[length - 1] == 0
        invariant length <= old(length) && Valid()
        invariant Value(Words()) == old(Value(Words()))
      {
        ValuePrefix(limbs[..length], length - 1);
        assert limbs[..length][..length - 1] == limbs[..length - 1] && limbs[..length][..length] == limbs[..length];
        length := length - 1;
      }
    }
  }

  // karatsuba_one_level.
  method KaratsubaOneLevel(out: Bignum, a: Bignum, b: Bignum, workspace: array<word>, words: nat) returns (ok: bool)
    requires out.Valid() && a.Valid() && b.Valid() && words <= workspace.Length
    requires workspace != out.limbs && workspace != a.limbs && workspace != b.limbs
    requires (out != a ==> out.limbs != a.limbs) && (out != b ==> out.limbs != b.limbs)
    modifies out, out.limbs, workspace
    ensures ok <==> out != a && out != b && a.length == b.length && 4 <= a.length && Required(a.length) <= words
    ensures out.Valid() && (!ok ==> out.Words() == old(out.Words()))
    ensures ok ==> out.Normalized() && Value(out.Words()) == Value(old(a.Words())) * Value(old(b.Words()))
  {
    hide Value, Weight, Coefficients, Ready, Required, Region;
    if out == a || out == b || a.length != b.length || a.length < 4 {
      return false;
    }
    var n := a.length;
    if words < Required(n) {
      return false;
    }
    Clear(workspace, 0, Required(n));
    var x, y := a.limbs[..n], b.limbs[..n];
    ok := EvaluateParts(workspace, x, y);
    if !ok {
      return;
    }
    ok := SubtractOuter(workspace, x, y);
    if !ok {
      return;
    }
    out.Reserve(2 * n);
    Clear(out.limbs, 0, 2 * n);
    ok := Assemble(out.limbs, workspace, x, y);
    if !ok {
      return;
    }
    out.length := 2 * n;
    RegionIsSlice(out.limbs[..], 0, 2 * n);
    out.Normalize();
  }
}
