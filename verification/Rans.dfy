/** The byte-aligned rANS coder: the exact division step, its reciprocal form, and runs over a stream. */
module Rans {
  import opened Arith

  const RANS_BYTE_L := 0x80_0000
  const SCALE := 1024
  const X_MAX_UNIT := 0x20_0000 // (RANS_BYTE_L >> 10) << 8

  type byte = x: int | 0 <= x < 256
  type Bytes = seq<byte>

  datatype Option<+T> = None | Some(value: T)

  /** Start and frequency of a symbol in the 1024-slot scale. */
  datatype DecSymbol = DecSymbol(start: nat, freq: nat)

  /** The encoder's precomputed description of a symbol. */
  datatype EncSymbol = EncSymbol(xMax: nat, rcpFreq: nat, bias: nat, cmplFreq: nat, rcpShift: nat)

  predicate ValidSymbol(d: DecSymbol) {
    1 <= d.freq && d.start + d.freq <= SCALE
  }

  predicate Normalized(x: int) {
    RANS_BYTE_L <= x < 256 * RANS_BYTE_L
  }

  function U32(x: int): int {
    x % 0x1_0000_0000
  }

  // ---------- the coding step ----------

  /** x_new = (x / freq) * M + x % freq + start, the step with a division. */
  function DivisionStep(x: nat, d: DecSymbol): nat
    requires ValidSymbol(d)
  {
    DivMod(x, d.freq);
    (x / d.freq) * SCALE + x % d.freq + d.start
  }

  /** The high word of a 32-by-32-bit product, shifted down. */
  function MulHigh(x: nat, rcp: nat, shift: nat): int {
    PowPositive(2, shift);
    ((x * rcp) / 0x1_0000_0000) / Pow(2, shift)
  }

  /** The step as the encoder takes it: a multiply-high, a shift, and wrapping 32-bit additions. */
  function ReciprocalStep(x: nat, s: EncSymbol): int {
    U32(x + s.bias + MulHigh(x, s.rcpFreq, s.rcpShift) * s.cmplFreq)
  }

  /** The encoder symbol s does for every state below its bound what the division does for d. */
  ghost predicate Represents(s: EncSymbol, d: DecSymbol)
    requires ValidSymbol(d)
  {
    && s.xMax == X_MAX_UNIT * d.freq
    && forall x: nat {:trigger ReciprocalStep(x, s)} ::
         0 < x < s.xMax ==> ReciprocalStep(x, s) == DivisionStep(x, d)
  }

  lemma DivisionStepRange(x: nat, d: DecSymbol)
    requires ValidSymbol(d) && 0x2000 * d.freq <= x < X_MAX_UNIT * d.freq
    ensures Normalized(DivisionStep(x, d))
  {
    DivBound(x, d.freq, 0x2000, X_MAX_UNIT);
  }

  lemma CeilingQuotient(m: nat, freq: nat)
    requires 0 < freq
    ensures var c := (m + freq - 1) / freq; 0 <= c && 0 <= c * freq - m < freq
  {
    DivMod(m + freq - 1, freq);
  }

  /** Alverson's reciprocal gives the exact quotient of every 31-bit state. */
  lemma ReciprocalQuotient(x: nat, freq: nat, half: nat, rcp: nat)
    requires x < 0x8000_0000 && 0 < half < freq <= 2 * half
    requires rcp == (0x1_0000_0000 * half + freq - 1) / freq
    ensures ((x * rcp) / 0x1_0000_0000) / half == x / freq
  {
    var m := 0x1_0000_0000 * half;
    CeilingQuotient(m, freq);
    ExcessBound(x, rcp * freq - m, half);
    QuotientWindow(x, rcp, freq, m);
    NestedQuotient(x * rcp, half, x / freq);
  }

  lemma ExcessBound(x: nat, e: nat, half: nat)
    requires x < 0x8000_0000 && e < 2 * half
    ensures 0 <= x * e < 0x1_0000_0000 * half
  {
    MulBound(x, 0x8000_0000 - 1, e, 2 * half - 1);
  }

  lemma QuotientWindow(x: nat, rcp: nat, freq: nat, m: nat)
    requires 0 < freq && 0 <= x * (rcp * freq - m) < m
    ensures (x / freq) * m <= x * rcp < (x / freq + 1) * m
  {
    var e, q, r := rcp * freq - m, x / freq, x % freq;
    DivMod(x, freq);
    ReciprocalExpansion(x, rcp, freq, m, e, q, r);
    RemainderBound(r, m, freq);
    ScaledQuotient(x * rcp, freq, m, q, r * m + x * e);
  }

  lemma RemainderBound(r: nat, m: nat, freq: nat)
    requires r < freq
    ensures 0 <= r * m <= freq * m - m
  {
    MulMono(r, freq - 1, m);
    assert (freq - 1) * m == freq * m - m;
  }

  lemma ReciprocalExpansion(x: int, rcp: int, freq: int, m: int, e: int, q: int, r: int)
    requires rcp * freq == m + e && x == q * freq + r
    ensures (x * rcp) * freq == (q * m) * freq + (r * m + x * e)
  {
    calc {
      (x * rcp) * freq;
      { MulAssoc(x, rcp, freq); }
      x * (m + e);
      x * m + x * e;
      { assert (q * freq + r) * m == (q * freq) * m + r * m; }
      (q * freq) * m + (r * m + x * e);
      { assert (q * freq) * m == (q * m) * freq; }
      (q * m) * freq + (r * m + x * e);
    }
  }

  lemma NestedQuotient(y: int, half: int, q: int)
    requires 0 < half && q * (0x1_0000_0000 * half) <= y < (q + 1) * (0x1_0000_0000 * half)
    ensures (y / 0x1_0000_0000) / half == q
  {
    assert q * (0x1_0000_0000 * half) == (q * half) * 0x1_0000_0000;
    assert (q + 1) * (0x1_0000_0000 * half) == ((q + 1) * half) * 0x1_0000_0000;
    DivBound(y, 0x1_0000_0000, q * half, (q + 1) * half);
    DivBound(y / 0x1_0000_0000, half, q, q + 1);
  }

  lemma ScaledQuotient(y: int, freq: int, m: int, q: int, rest: int)
    requires 0 < freq && y * freq == (q * m) * freq + rest && 0 <= rest < freq * m
    ensures q * m <= y < (q + 1) * m
  {
    assert (q + 1) * m == q * m + m;
    assert (y - q * m) * freq == rest;
    if y < q * m {
      MulMono(y - q * m, -1, freq);
    }
    if y - q * m >= m {
      MulMono(m, y - q * m, freq);
    }
  }

  /** The fields the encoder symbol of d must have. */
  predicate ReciprocalEntry(s: EncSymbol, d: DecSymbol) {
    && ValidSymbol(d)
    && s.xMax == X_MAX_UNIT * d.freq && s.cmplFreq == SCALE - d.freq
    && (if d.freq == 1 then s.rcpFreq == 0xFFFF_FFFF && s.bias == d.start + SCALE - 1 && s.rcpShift == 0
        else
          && s.rcpShift < 10 && Pow(2, s.rcpShift) < d.freq <= 2 * Pow(2, s.rcpShift)
          && s.rcpFreq == (0x1_0000_0000 * Pow(2, s.rcpShift) + d.freq - 1) / d.freq && s.bias == d.start)
  }

  lemma EntryRepresents(s: EncSymbol, d: DecSymbol)
    requires ReciprocalEntry(s, d)
    ensures Represents(s, d) && s.rcpFreq < 0x1_0000_0000
  {
    if d.freq == 1 {
      RepresentsUnit(s, d);
    } else {
      RepresentsReciprocal(s, d);
    }
  }

  // Sets up an encoder symbol; the two branches are the source's special case for frequency one and
  // its rounded-up reciprocal.
  method RansEncSymbolInit(start: nat, freq: nat) returns (s: EncSymbol)
    requires ValidSymbol(DecSymbol(start, freq))
    ensures Represents(s, DecSymbol(start, freq))
    ensures s.rcpFreq < 0x1_0000_0000 && s.cmplFreq < 0x1_0000 && s.rcpShift < 0x1_0000
  {
    var d := DecSymbol(start, freq);
    if freq < 2 {
      s := EncSymbol(X_MAX_UNIT * freq, 0xFFFF_FFFF, start + SCALE - 1, SCALE - freq, 0);
      RepresentsUnit(s, d);
    } else {
      var shift: nat := 0;
      while freq > Pow(2, shift)
        invariant shift == 0 || Pow(2, shift - 1) < freq
        decreases freq - Pow(2, shift)
      {
        PowPositive(2, shift);
        shift := shift + 1;
      }
      ShiftFound(freq, shift);
      s := EncSymbol(X_MAX_UNIT * freq, (Pow(2, shift + 31) + freq - 1) / freq, start, SCALE - freq, shift - 1);
      RepresentsReciprocal(s, d);
    }
  }

  lemma ShiftFound(freq: nat, shift: nat)
    requires 2 <= freq <= SCALE && 0 < shift && Pow(2, shift - 1) < freq <= Pow(2, shift)
    ensures 0 < Pow(2, shift - 1) && shift <= 10 && Pow(2, shift + 31) == 0x1_0000_0000 * Pow(2, shift - 1)
    ensures 0 <= (Pow(2, shift + 31) + freq - 1) / freq
  {
    PowPositive(2, shift - 1);
    assert Pow(2, 10) == 1024;
    if shift > 10 {
      PowMono(2, 10, shift - 1);
    }
    PowAdd(2, 32, shift - 1);
    Pow2Values();
    DivMod(Pow(2, shift + 31) + freq - 1, freq);
  }

  lemma RepresentsUnit(s: EncSymbol, d: DecSymbol)
    requires ValidSymbol(d) && d.freq == 1
    requires s == EncSymbol(X_MAX_UNIT, 0xFFFF_FFFF, d.start + SCALE - 1, SCALE - 1, 0)
    ensures Represents(s, d)
  {
    forall x: nat {:trigger ReciprocalStep(x, s)} | 0 < x < s.xMax
      ensures ReciprocalStep(x, s) == DivisionStep(x, d)
    {
      DivModUnique(x * 0xFFFF_FFFF, 0x1_0000_0000, x - 1, 0x1_0000_0000 - x);
      DivModUnique(x - 1, 1, x - 1, 0);
      DivModUnique(x, 1, x, 0);
      assert MulHigh(x, s.rcpFreq, 0) == x - 1;
    }
  }

  lemma RepresentsReciprocal(s: EncSymbol, d: DecSymbol)
    requires ValidSymbol(d) && s.rcpShift < 10 && Pow(2, s.rcpShift) < d.freq <= 2 * Pow(2, s.rcpShift)
    requires s.xMax == X_MAX_UNIT * d.freq && s.bias == d.start && s.cmplFreq == SCALE - d.freq
    requires s.rcpFreq == (0x1_0000_0000 * Pow(2, s.rcpShift) + d.freq - 1) / d.freq
    ensures Represents(s, d) && s.rcpFreq < 0x1_0000_0000
  {
    var half := Pow(2, s.rcpShift);
    PowPositive(2, s.rcpShift);
    forall x: nat {:trigger ReciprocalStep(x, s)} | 0 < x < s.xMax
      ensures ReciprocalStep(x, s) == DivisionStep(x, d)
    {
      ReciprocalQuotient(x, d.freq, half, s.rcpFreq);
      assert MulHigh(x, s.rcpFreq, s.rcpShift) == x / d.freq;
      StepWithoutDivision(x, d);
    }
    PowMono(2, s.rcpShift, 9);
    assert Pow(2, 9) == 512;
    ReciprocalFits(half, d.freq);
  }

  /** x + start + q * (M - freq) is the division step when q is the quotient. */
  lemma StepWithoutDivision(x: nat, d: DecSymbol)
    requires ValidSymbol(d) && x < X_MAX_UNIT * d.freq
    ensures U32(x + d.start + (x / d.freq) * (SCALE - d.freq)) == DivisionStep(x, d)
  {
    var q := x / d.freq;
    DivMod(x, d.freq);
    DivBound(x, d.freq, 0, X_MAX_UNIT);
    assert q * (SCALE - d.freq) == q * SCALE - q * d.freq;
  }

  lemma ReciprocalFits(half: nat, freq: nat)
    requires 0 < half < freq <= 1024 && half <= 512
    ensures 0 <= (0x1_0000_0000 * half + freq - 1) / freq < 0x1_0000_0000
  {
    DivBound(0x1_0000_0000 * half + freq - 1, freq, 0, 0x1_0000_0000);
  }

  // ---------- renormalization ----------

  /** Shift bytes out until the state is below xMax; the bytes in the order they lie in the buffer. */
  function EncRenorm(x: nat, xMax: nat): (nat, Bytes)
    requires 0 < xMax
  {
    if x < xMax then (x, [])
    else
      var (y, bytes) := EncRenorm(x / 256, xMax);
      (y, bytes + [x % 256])
  }

  /** Shift bytes in until the state is at least RANS_BYTE_L or the input ends. */
  function DecRenorm(x: nat, input: Bytes): (nat, Bytes)
    decreases |input|
  {
    if x < RANS_BYTE_L && input != [] then DecRenorm(256 * x + input[0], input[1..]) else (x, input)
  }

  function EncPut(x: nat, out: Bytes, d: DecSymbol): (nat, Bytes)
    requires ValidSymbol(d)
  {
    var (y, bytes) := EncRenorm(x, X_MAX_UNIT * d.freq);
    (DivisionStep(y, d), bytes + out)
  }

  /** The state before renormalization when the decoder pops symbol d from state x. */
  function PopState(x: nat, d: DecSymbol): int {
    d.freq * (x / SCALE) + x % SCALE - d.start
  }

  predicate InSlot(x: nat, d: DecSymbol) {
    d.start <= x % SCALE < d.start + d.freq
  }

  function DecAdvance(x: nat, input: Bytes, d: DecSymbol): (nat, Bytes)
    requires InSlot(x, d)
  {
    DecRenorm(PopState(x, d), input)
  }

  /** From a normalized state at most two bytes leave, and the step lands in the interval again. */
  lemma EncPutKeepsInterval(x: nat, out: Bytes, d: DecSymbol)
    requires Normalized(x) && ValidSymbol(d)
    ensures var (y, bytes) := EncRenorm(x, X_MAX_UNIT * d.freq);
            0x2000 * d.freq <= y < X_MAX_UNIT * d.freq && |bytes| <= 2
    ensures Normalized(EncPut(x, out, d).0)
  {
    var xMax := X_MAX_UNIT * d.freq;
    var (y, bytes) := EncRenorm(x, xMax);
    if x >= xMax {
      var x1 := x / 256;
      assert EncRenorm(x, xMax).1 == EncRenorm(x1, xMax).1 + [x % 256];
      if x1 >= xMax {
        assert EncRenorm(x1 / 256, xMax) == (x1 / 256, []);
      }
    }
    DivisionStepRange(y, d);
  }

  lemma PopInvertsStep(x: nat, d: DecSymbol)
    requires ValidSymbol(d)
    ensures InSlot(DivisionStep(x, d), d) && PopState(DivisionStep(x, d), d) == x
  {
    DivMod(x, d.freq);
    DivModUnique(DivisionStep(x, d), SCALE, x / d.freq, x % d.freq + d.start);
  }

  lemma StepInvertsPop(x: nat, d: DecSymbol)
    requires ValidSymbol(d) && InSlot(x, d)
    ensures 0 <= PopState(x, d) && DivisionStep(PopState(x, d), d) == x
  {
    MulBound(d.freq, d.freq, x / SCALE, x / SCALE);
    DivModUnique(PopState(x, d), d.freq, x / SCALE, x % SCALE - d.start);
  }

  lemma {:induction false} DecRenormInvertsEncRenorm(x: nat, xMax: nat, out: Bytes)
    requires 0 < xMax && x < 256 * RANS_BYTE_L
    ensures var (y, bytes) := EncRenorm(x, xMax);
            DecRenorm(y, bytes + out) == DecRenorm(x, out)
  {
    if x < xMax {
      assert [] + out == out;
    } else {
      var (y, bytes) := EncRenorm(x / 256, xMax);
      DecRenormInvertsEncRenorm(x / 256, xMax, [x % 256] + out);
      assert bytes + [x % 256] + out == bytes + ([x % 256] + out);
      assert ([x % 256] + out)[1..] == out;
    }
  }

  /** What the decoder reads above a popped state is what the encoder shifts out to come back to it. */
  lemma {:induction false} EncRenormInvertsDecRenorm(x: nat, y: nat, acc: Bytes, input: Bytes, d: DecSymbol)
    requires ValidSymbol(d) && 0x2000 * d.freq <= x <= y && EncRenorm(y, X_MAX_UNIT * d.freq) == (x, acc)
    ensures var (z, rest) := DecRenorm(y, input);
            exists bytes :: EncRenorm(z, X_MAX_UNIT * d.freq) == (x, bytes) && bytes + rest == acc + input
    decreases |input|
  {
    if y < RANS_BYTE_L && input != [] {
      var y' := 256 * y + input[0];
      assert EncRenorm(y', X_MAX_UNIT * d.freq) == (x, acc + [input[0]]);
      EncRenormInvertsDecRenorm(x, y', acc + [input[0]], input[1..], d);
      assert acc + [input[0]] + input[1..] == acc + input;
    }
  }

  /** Decoding a symbol undoes encoding it. */
  lemma DecInvertsEnc(x: nat, out: Bytes, d: DecSymbol)
    requires Normalized(x) && ValidSymbol(d)
    ensures var (y, bytes) := EncPut(x, out, d);
            InSlot(y, d) && DecAdvance(y, bytes, d) == (x, out)
  {
    var (y, bytes) := EncRenorm(x, X_MAX_UNIT * d.freq);
    PopInvertsStep(y, d);
    DecRenormInvertsEncRenorm(x, X_MAX_UNIT * d.freq, out);
  }

  /** Encoding a symbol undoes decoding it, as long as the input lasted. */
  lemma EncInvertsDec(x: nat, input: Bytes, d: DecSymbol)
    requires Normalized(x) && ValidSymbol(d) && InSlot(x, d)
    ensures 0 <= PopState(x, d)
    ensures var (y, rest) := DecAdvance(x, input, d);
            if y < RANS_BYTE_L then rest == [] else Normalized(y) && EncPut(y, rest, d) == (x, input)
  {
    StepInvertsPop(x, d);
    var p := PopState(x, d);
    PopRange(x, d);
    assert EncRenorm(p, X_MAX_UNIT * d.freq) == (p, []);
    EncRenormInvertsDecRenorm(p, p, [], input, d);
    DecRenormRange(p, input);
    assert [] + input == input;
  }

  lemma PopRange(x: nat, d: DecSymbol)
    requires Normalized(x) && ValidSymbol(d) && InSlot(x, d)
    ensures 0x2000 * d.freq <= PopState(x, d) < X_MAX_UNIT * d.freq
  {
    MulMono(0x2000, x / SCALE, d.freq);
    MulMono(x / SCALE, X_MAX_UNIT - 1, d.freq);
  }

  lemma {:induction false} DecRenormRange(x: nat, input: Bytes)
    requires x < 256 * RANS_BYTE_L
    ensures var (y, rest) := DecRenorm(x, input);
            y < 256 * RANS_BYTE_L && (y < RANS_BYTE_L ==> rest == [])
    decreases |input|
  {
    if x < RANS_BYTE_L && input != [] {
      DecRenormRange(256 * x + input[0], input[1..]);
    }
  }

  /** An exhausted decoder never climbs back to a normalized state. */
  lemma ExhaustedStaysLow(x: nat, d: DecSymbol)
    requires ValidSymbol(d) && InSlot(x, d) && x < RANS_BYTE_L
    ensures 0 <= PopState(x, d) <= x
  {
    MulMono(d.freq, SCALE, x / SCALE);
    MulBound(d.freq, d.freq, x / SCALE, x / SCALE);
  }

  // ---------- tables and whole runs ----------

  type Table = seq<DecSymbol>

  /** The symbols' ranges tile the slots from start(0) up to end. */
  ghost predicate Tiles(table: Table, start: nat, end: nat) {
    if table == [] then start == end
    else table[0].start == start && ValidSymbol(table[0]) && Tiles(table[1..], start + table[0].freq, end)
  }

  ghost predicate ValidTable(table: Table) {
    Tiles(table, 0, SCALE)
  }

  /** The symbol whose range holds a slot: the content of the 1024-entry slot table. */
  function SymbolOf(table: Table, slot: nat): nat
    requires table != []
  {
    if |table| == 1 || slot < table[0].start + table[0].freq then 0 else 1 + SymbolOf(table[1..], slot)
  }

  lemma {:induction false} SymbolOfSlot(table: Table, slot: nat, start: nat)
    requires Tiles(table, start, SCALE) && start <= slot < SCALE
    ensures table != [] && SymbolOf(table, slot) < |table|
    ensures ValidSymbol(table[SymbolOf(table, slot)])
    ensures var d := table[SymbolOf(table, slot)]; d.start <= slot < d.start + d.freq
  {
    if slot >= table[0].start + table[0].freq {
      SymbolOfSlot(table[1..], slot, start + table[0].freq);
    }
  }

  /** The slots of a symbol determine it. */
  lemma {:induction false} SlotDeterminesSymbol(table: Table, s: nat, slot: nat, start: nat)
    requires Tiles(table, start, SCALE) && s < |table|
    requires table[s].start <= slot < table[s].start + table[s].freq
    ensures start <= slot < SCALE && SymbolOf(table, slot) == s && ValidSymbol(table[s])
  {
    if s > 0 {
      SlotDeterminesSymbol(table[1..], s - 1, slot, start + table[0].freq);
    } else {
      TilesEnd(table, start);
    }
  }

  lemma {:induction false} TilesEnd(table: Table, start: nat)
    requires Tiles(table, start, SCALE)
    ensures start <= SCALE
  {
    if table != [] {
      TilesEnd(table[1..], start + table[0].freq);
    }
  }

  ghost predicate ValidSymbols(table: Table, symbols: seq<nat>) {
    forall i | 0 <= i < |symbols| :: symbols[i] < |table|
  }

  /** The encoder's final state and bytes; the last symbol is put first. */
  ghost function EncodeSymbols(table: Table, symbols: seq<nat>): (nat, Bytes)
    requires ValidTable(table) && ValidSymbols(table, symbols)
  {
    if symbols == [] then (RANS_BYTE_L, [])
    else
      var (x, out) := EncodeSymbols(table, symbols[1..]);
      EntryValid(table, symbols[0]);
      EncPut(x, out, table[symbols[0]])
  }

  lemma {:induction false} EntryValid(table: Table, s: nat)
    requires ValidTable(table) && s < |table|
    ensures ValidSymbol(table[s])
  {
    ValidEntry(table, s, 0);
  }

  lemma {:induction false} ValidEntry(table: Table, s: nat, start: nat)
    requires Tiles(table, start, SCALE) && s < |table|
    ensures ValidSymbol(table[s])
  {
    if s > 0 {
      ValidEntry(table[1..], s - 1, start + table[0].freq);
    }
  }

  /** n symbols popped from state x, with the state and input left over. */
  ghost function DecodeSymbols(table: Table, n: nat, x: nat, input: Bytes): (seq<nat>, nat, Bytes)
    requires ValidTable(table)
  {
    if n == 0 then ([], x, input)
    else
      SymbolOfSlot(table, x % SCALE, 0);
      var s := SymbolOf(table, x % SCALE);
      var (y, rest) := DecAdvance(x, input, table[s]);
      var (symbols, z, left) := DecodeSymbols(table, n - 1, y, rest);
      ([s] + symbols, z, left)
  }

  lemma {:induction false} EncodeNormalized(table: Table, symbols: seq<nat>)
    requires ValidTable(table) && ValidSymbols(table, symbols)
    ensures Normalized(EncodeSymbols(table, symbols).0)
  {
    if symbols != [] {
      EncodeNormalized(table, symbols[1..]);
      var (x, out) := EncodeSymbols(table, symbols[1..]);
      EntryValid(table, symbols[0]);
      EncPutKeepsInterval(x, out, table[symbols[0]]);
    }
  }

  /** Decoding a run of symbols undoes encoding it and leaves what follows untouched. */
  lemma {:induction false} DecodeInvertsEncode(table: Table, symbols: seq<nat>, rest: Bytes)
    requires ValidTable(table) && ValidSymbols(table, symbols)
    ensures var (x, out) := EncodeSymbols(table, symbols);
            DecodeSymbols(table, |symbols|, x, out + rest) == (symbols, RANS_BYTE_L, rest)
  {
    if symbols == [] {
      assert [] + rest == rest;
    } else {
      var d := table[symbols[0]];
      var (x, out) := EncodeSymbols(table, symbols[1..]);
      EntryValid(table, symbols[0]);
      EncodeNormalized(table, symbols[1..]);
      DecInvertsEnc(x, out + rest, d);
      var (y, bytes) := EncPut(x, out, d);
      var pushed := EncRenorm(x, X_MAX_UNIT * d.freq).1;
      assert bytes + rest == pushed + (out + rest);
      SlotDeterminesSymbol(table, symbols[0], y % SCALE, 0);
      DecodeInvertsEncode(table, symbols[1..], rest);
      assert [symbols[0]] + symbols[1..] == symbols;
    }
  }

  lemma {:induction false} ExhaustedRun(table: Table, n: nat, x: nat)
    requires ValidTable(table) && x < RANS_BYTE_L
    ensures DecodeSymbols(table, n, x, []).1 < RANS_BYTE_L
  {
    if n > 0 {
      SymbolOfSlot(table, x % SCALE, 0);
      var d := table[SymbolOf(table, x % SCALE)];
      ExhaustedStaysLow(x, d);
      assert DecAdvance(x, [], d) == (PopState(x, d), []);
      ExhaustedRun(table, n - 1, PopState(x, d));
    }
  }

  /** A run that ends cleanly is the encoding of the symbols it produced. */
  lemma {:induction false} EncodeInvertsDecode(table: Table, n: nat, x: nat, input: Bytes)
    requires ValidTable(table) && Normalized(x)
    requires DecodeSymbols(table, n, x, input).1 == RANS_BYTE_L && DecodeSymbols(table, n, x, input).2 == []
    ensures var symbols := DecodeSymbols(table, n, x, input).0;
            |symbols| == n && ValidSymbols(table, symbols) && EncodeSymbols(table, symbols) == (x, input)
  {
    if n > 0 {
      SymbolOfSlot(table, x % SCALE, 0);
      var s := SymbolOf(table, x % SCALE);
      var (y, rest) := DecAdvance(x, input, table[s]);
      EncInvertsDec(x, input, table[s]);
      if y < RANS_BYTE_L {
        ExhaustedRun(table, n - 1, y);
      }
      EncodeInvertsDecode(table, n - 1, y, rest);
      var symbols := DecodeSymbols(table, n - 1, y, rest).0;
      assert ([s] + symbols)[1..] == symbols;
    }
  }

  // ---------- the byte stream ----------

  function Store32(x: nat): (bytes: Bytes)
    ensures |bytes| == 4
  {
    [x % 0x100, x / 0x100 % 0x100, x / 0x1_0000 % 0x100, x / 0x100_0000 % 0x100]
  }

  function Word(b0: nat, b1: nat, b2: nat, b3: nat): nat {
    b0 + 0x100 * b1 + 0x1_0000 * b2 + 0x100_0000 * b3
  }

  function Load32(bytes: Bytes): nat
    requires |bytes| >= 4
  {
    Word(bytes[0], bytes[1], bytes[2], bytes[3])
  }

  lemma LoadStore(x: nat)
    requires x < 0x1_0000_0000
    ensures Load32(Store32(x)) == x
  {
    assert x / 0x1_0000 == x / 0x100 / 0x100 && x / 0x100_0000 == x / 0x100 / 0x100 / 0x100;
  }

  lemma StoreLoad(bytes: Bytes)
    requires |bytes| >= 4
    ensures Load32(bytes) < 0x1_0000_0000 && Store32(Load32(bytes)) == bytes[..4]
  {
    WordDigits(bytes[0], bytes[1], bytes[2], bytes[3]);
  }

  lemma WordDigits(b0: byte, b1: byte, b2: byte, b3: byte)
    ensures var x := Word(b0, b1, b2, b3);
            x < 0x1_0000_0000 && Store32(x) == [b0, b1, b2, b3]
  {
    var x := Word(b0, b1, b2, b3);
    WordQuotients(b0, b1, b2, b3, x);
  }

  lemma WordQuotients(b0: byte, b1: byte, b2: byte, b3: byte, x: nat)
    requires x == b0 + 0x100 * b1 + 0x1_0000 * b2 + 0x100_0000 * b3
    ensures x % 0x100 == b0 && x / 0x100 % 0x100 == b1 && x / 0x1_0000 % 0x100 == b2 && x / 0x100_0000 == b3
  {
    var h1, h2 := b1 + 0x100 * b2 + 0x1_0000 * b3, b2 + 0x100 * b3;
    DivModUnique(x, 0x100, h1, b0);
    DivModUnique(x, 0x1_0000, h2, b0 + 0x100 * b1);
    DivModUnique(x, 0x100_0000, b3, b0 + 0x100 * b1 + 0x1_0000 * b2);
    DivModUnique(h1, 0x100, h2, b1);
    DivModUnique(h2, 0x100, b3, b2);
  }

  /** The flushed state followed by the shifted-out bytes. */
  ghost function Stream(table: Table, symbols: seq<nat>): Bytes
    requires ValidTable(table) && ValidSymbols(table, symbols)
  {
    var (x, out) := EncodeSymbols(table, symbols);
    Store32(x) + out
  }

  /** What a decoder that checks the first state, the last state and the length accepts. */
  ghost function DecodeStream(table: Table, n: nat, bytes: Bytes): Option<seq<nat>>
    requires ValidTable(table)
  {
    if |bytes| < 4 || !Normalized(Load32(bytes)) then None
    else
      var (symbols, x, rest) := DecodeSymbols(table, n, Load32(bytes), bytes[4..]);
      if x == RANS_BYTE_L && rest == [] then Some(symbols) else None
  }

  /** The decoder accepts exactly the encoder's streams, each with the symbols it was made from. */
  lemma StreamBijection(table: Table, n: nat, bytes: Bytes, symbols: seq<nat>)
    requires ValidTable(table)
    ensures DecodeStream(table, n, bytes) == Some(symbols)
            <==> |symbols| == n && ValidSymbols(table, symbols) && Stream(table, symbols) == bytes
  {
    if DecodeStream(table, n, bytes) == Some(symbols) {
      EncodeInvertsDecode(table, n, Load32(bytes), bytes[4..]);
      StoreLoad(bytes);
      assert bytes[..4] + bytes[4..] == bytes;
    }
    if |symbols| == n && ValidSymbols(table, symbols) && Stream(table, symbols) == bytes {
      var (x, out) := EncodeSymbols(table, symbols);
      EncodeNormalized(table, symbols);
      LoadStore(x);
      assert bytes[..4] == Store32(x) && bytes[4..] == out;
      DecodeInvertsEncode(table, symbols, []);
      assert out + [] == out;
    }
  }

  // ---------- the coder over buffers ----------

  // Puts one symbol in front of buf[ptr..], moving the write pointer down.
  method RansEncPutSymbol(r: nat, buf: array<byte>, ptr: nat, sym: EncSymbol, ghost d: DecSymbol)
      returns (r': nat, ptr': nat)
    requires ValidSymbol(d) && Represents(sym, d) && Normalized(r) && 2 <= ptr <= buf.Length
    modifies buf
    ensures ptr - 2 <= ptr' <= ptr && Normalized(r')
    ensures (r', buf[ptr'..]) == EncPut(r, old(buf[ptr..]), d)
  {
    var x: nat := r;
    ptr' := ptr;
    EncPutKeepsInterval(r, buf[ptr..], d);
    ghost var out := buf[ptr..];
    ghost var (y, bytes) := EncRenorm(r, sym.xMax);
    while x >= sym.xMax
      invariant ptr' <= ptr && EncRenorm(x, sym.xMax).0 == y
      invariant |EncRenorm(x, sym.xMax).1| == |bytes| - (ptr - ptr')
      invariant EncRenorm(x, sym.xMax).1 + buf[ptr'..] == bytes + out
      decreases x
    {
      ghost var more := EncRenorm(x / 256, sym.xMax).1;
      ghost var tail := buf[ptr'..];
      ptr' := ptr' - 1;
      buf[ptr'] := x % 256;
      assert buf[ptr'..] == [x % 256] + tail;
      assert more + [x % 256] + tail == more + buf[ptr'..];
      x := x / 256;
    }
    assert [] + buf[ptr'..] == buf[ptr'..];
    r' := ReciprocalStep(x, sym);
  }

  // Writes the state in front of the shifted-out bytes.
  method RansEncFlush(r: nat, buf: array<byte>, ptr: nat) returns (ptr': nat)
    requires 4 <= ptr <= buf.Length && r < 0x1_0000_0000
    modifies buf
    ensures ptr' == ptr - 4 && buf[ptr'..] == Store32(r) + old(buf[ptr..])
  {
    ptr' := ptr - 4;
    var word := Store32(r);
    buf[ptr'], buf[ptr' + 1], buf[ptr' + 2], buf[ptr' + 3] := word[0], word[1], word[2], word[3];
  }

  // Reads the first state; the error code is 1 when fewer than four bytes remain or it is out of range.
  method RansDecInit(buf: Bytes, ptr: nat) returns (error: nat, r: nat, ptr': nat)
    requires ptr <= |buf|
    ensures error == (if |buf| - ptr < 4 || !Normalized(Load32(buf[ptr..])) then 1 else 0)
    ensures error == 0 ==> r == Load32(buf[ptr..]) && ptr' == ptr + 4
  {
    if |buf| - ptr < 4 {
      return 1, 0, ptr;
    }
    r := Load32(buf[ptr..]);
    if r < RANS_BYTE_L || 256 * RANS_BYTE_L <= r {
      return 1, r, ptr;
    }
    return 0, r, ptr + 4;
  }

  method RansDecAdvance(r: nat, buf: Bytes, ptr: nat, d: DecSymbol) returns (r': nat, ptr': nat)
    requires ValidSymbol(d) && InSlot(r, d) && ptr <= |buf|
    ensures ptr <= ptr' <= |buf| && (r', buf[ptr'..]) == DecAdvance(r, buf[ptr..], d)
  {
    StepInvertsPop(r, d);
    r' := d.freq * (r / SCALE) + r % SCALE - d.start;
    ptr' := ptr;
    while r' < RANS_BYTE_L && ptr' < |buf|
      invariant ptr <= ptr' <= |buf|
      invariant DecRenorm(r', buf[ptr'..]) == DecAdvance(r, buf[ptr..], d)
      decreases |buf| - ptr'
    {
      assert buf[ptr'..][1..] == buf[ptr' + 1..];
      r' := 256 * r' + buf[ptr'];
      ptr' := ptr' + 1;
    }
  }

  method RansDecVerify(r: nat) returns (error: nat)
    ensures error == (if r == RANS_BYTE_L then 0 else 1)
  {
    if r != RANS_BYTE_L {
      return 1;
    }
    return 0;
  }
}
