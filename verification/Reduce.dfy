/** Modular reduction for q = 64513 by floor division, in Montgomery and Barrett form. */
module Reduce {
  import opened Arith

  const Q := 64513
  const DOUBLE_Q := 129026
  const MONT := 14321             // 2^32 mod Q
  const Q_INVERSE := 940508161    // Q^-1 mod 2^32
  const Q_RECIPROCAL := 66575
  const DOUBLE_Q_RECIPROCAL := 33287

  function U32(x: int): int {
    x % 0x1_0000_0000
  }

  predicate Int32(x: int) {
    -0x8000_0000 <= x < 0x8000_0000
  }

  function MontgomeryReduce(a: int): int {
    var bits := U32(U32(a) * Q_INVERSE);
    var t := if bits < 0x8000_0000 then bits else bits - 0x1_0000_0000;
    (a - t * Q) / 0x1_0000_0000
  }

  /** The division is exact, so the result is a * 2^-32 modulo Q. */
  lemma MontgomeryExact(a: int)
    ensures exists t :: -0x8000_0000 <= t < 0x8000_0000 && MontgomeryReduce(a) * 0x1_0000_0000 == a - t * Q
  {
    var low := U32(a);
    var k := low * Q_INVERSE / 0x1_0000_0000;
    var bits := low * Q_INVERSE - k * 0x1_0000_0000;
    assert bits == U32(low * Q_INVERSE);
    var t := if bits < 0x8000_0000 then bits else bits - 0x1_0000_0000;
    var c := a / 0x1_0000_0000 - 14127 * low + k * Q + (if bits < 0x8000_0000 then 0 else Q);
    assert a - t * Q == c * 0x1_0000_0000;
    assert MontgomeryReduce(a) == c;
  }

  lemma MontgomeryCongruent(a: int)
    ensures Cong(MontgomeryReduce(a) * MONT, a, Q)
  {
    MontgomeryExact(a);
    var t :| -0x8000_0000 <= t < 0x8000_0000 && MontgomeryReduce(a) * 0x1_0000_0000 == a - t * Q;
    var r := MontgomeryReduce(a);
    assert r * MONT - a == (-t - 66575 * r) * Q;
    CongIntro(r * MONT, a, Q, -t - 66575 * r);
  }

  /** The documented range holds on [-2^31 Q, 2^31 Q] except at its upper end, where the result is Q itself. */
  lemma MontgomeryRange(a: int)
    requires -0x8000_0000 * Q <= a <= 0x8000_0000 * Q
    ensures -Q < MontgomeryReduce(a) < Q <==> a < 0x8000_0000 * Q
  {
    MontgomeryExact(a);
    if a == 0x8000_0000 * Q {
      MontgomeryAtUpperEnd();
    }
  }

  lemma MontgomeryAtUpperEnd()
    ensures MontgomeryReduce(0x8000_0000 * Q) == Q
  {
    DivModUnique(0x8000_0000 * Q, 0x1_0000_0000, 32256, 0x8000_0000);
    DivModUnique(0x8000_0000 * Q_INVERSE, 0x1_0000_0000, 470254080, 0x8000_0000);
    DivModUnique(0x8000_0000 * Q + 0x8000_0000 * Q, 0x1_0000_0000, Q, 0);
  }

  // Barrett reduction to [0, Q).
  method Freeze(a: int) returns (r: int)
    requires Int32(a)
    ensures r == a % Q
  {
    var t := a * Q_RECIPROCAL / 0x1_0000_0000;
    t := a - t * Q;
    if t < 0 {
      t := t + DOUBLE_Q;
    }
    if t - Q >= 0 {
      t := t - Q;
    }
    r := t;
  }

  // Barrett reduction to [0, 2Q).
  method Freeze2Q(a: int) returns (r: int)
    requires Int32(a)
    ensures r == a % DOUBLE_Q
  {
    var t := a * DOUBLE_Q_RECIPROCAL / 0x1_0000_0000;
    t := a - t * DOUBLE_Q;
    if t < 0 {
      t := t + 2 * DOUBLE_Q;
    }
    if t - DOUBLE_Q >= 0 {
      t := t - DOUBLE_Q;
    }
    r := t;
  }

  // Centred Barrett reduction modulo 2Q, to [-Q, Q).
  method Reduce32_2Q(a: int) returns (r: int)
    requires Int32(a)
    ensures -Q <= r < Q && r % DOUBLE_Q == a % DOUBLE_Q
  {
    var t := Freeze2Q(a);
    if t - Q >= 0 {
      t := t - DOUBLE_Q;
    }
    r := t;
  }
}
