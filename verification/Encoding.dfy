/** Entropy coding of the hint vector and of the high bits of z1. */
module Encoding {
  import opened Arith
  import opened Rans
  import opened RansTables

  /** How coefficients map to symbols. The unlikely middle of the hint range, and high bits outside the
      table, are not encoded. */
  datatype Alphabet =
    | Hint(offset: nat, esyms: seq<EncSymbol>, dsyms: Table)
    | HighBits(offset: nat, esyms: seq<EncSymbol>, dsyms: Table)
  {
    ghost predicate Valid() {
      Consistent(esyms, dsyms) && |dsyms| <= 256 && Balanced()
    }

    /** The table has a symbol for zero and as many on either side of it. */
    predicate Balanced() {
      |dsyms| % 2 == 1 && (HighBits? ==> 2 * offset + 1 == |dsyms|)
    }

    /** A coefficient is at most half the table away from zero; hints are counted modulo m + offset. */
    predicate NearZero(v: int) {
      -|dsyms| < 2 * v < |dsyms| || (Hint? && -|dsyms| < 2 * (v - |dsyms| - offset) < |dsyms|)
    }

    function Cut(): int {
      (|dsyms| - 1) / 2
    }

    /** Hints lie in [0, m + offset), which is [0, (2Q - 2) / alpha); high bits are any integers. */
    predicate InDomain(v: int) {
      Hint? ==> 0 <= v < |dsyms| + offset
    }

    function ToSymbol(v: int): Option<nat>
      requires InDomain(v)
    {
      if Hint? then
        if Cut() < v <= Cut() + offset then None
        else Some(if v > Cut() + offset then v - offset else v)
      else
        if v + offset < 0 || v + offset >= |dsyms| then None else Some(v + offset)
    }

    function FromSymbol(s: nat): int {
      if Hint? then if Cut() < s then s + offset else s else s - offset
    }

    predicate VectorInDomain(v: seq<int>) {
      forall i | 0 <= i < |v| :: InDomain(v[i])
    }

    /** The symbols of a vector, if every coefficient has one. */
    function ToSymbols(v: seq<int>): Option<seq<nat>>
      requires VectorInDomain(v)
    {
      if v == [] then Some([])
      else
        match (ToSymbol(v[0]), ToSymbols(v[1..]))
        case (Some(s), Some(rest)) => Some([s] + rest)
        case _ => None
    }

    function FromSymbols(symbols: seq<nat>): seq<int> {
      seq(|symbols|, i requires 0 <= i < |symbols| => FromSymbol(symbols[i]))
    }

    lemma SymbolMap(v: int, s: nat)
      requires InDomain(v) && s < |dsyms|
      ensures ToSymbol(v) == Some(s) <==> FromSymbol(s) == v
    {
    }

    lemma SymbolInTable(v: int)
      requires InDomain(v) && ToSymbol(v).Some?
      ensures ToSymbol(v).value < |dsyms| && FromSymbol(ToSymbol(v).value) == v
    {
    }

    /** A hint has a symbol exactly when its centred value is within half the table, and the symbol is that value
        modulo the table's length. */
    lemma HintSymbol(v: int, c: int)
      requires Hint? && Balanced() && InDomain(v)
      requires (v - c) % (|dsyms| + offset) == 0 && -(|dsyms| + offset) <= 2 * c < |dsyms| + offset
      ensures ToSymbol(v).Some? <==> -(|dsyms| - 1) / 2 <= c <= (|dsyms| - 1) / 2
      ensures ToSymbol(v).Some? ==> ToSymbol(v).value < |dsyms| && (ToSymbol(v).value - c) % |dsyms| == 0
      ensures ToSymbol(v).Some? <==> NearZero(v)
    {
      var m, all := |dsyms|, |dsyms| + offset;
      DivMod(v - c, all);
      Centred(v, c, all, (v - c) / all);
      DivModUnique(0, m, 0, 0);
      DivModUnique(m, m, 1, 0);
    }

    /** High bits have a symbol exactly within half the table of zero, in increasing order. */
    lemma HighBitsSymbol(v: int)
      requires HighBits? && Balanced()
      ensures ToSymbol(v).Some? <==> -(|dsyms| - 1) / 2 <= v <= (|dsyms| - 1) / 2
      ensures ToSymbol(v).Some? ==> ToSymbol(v).value == v + (|dsyms| - 1) / 2
      ensures ToSymbol(v).Some? <==> NearZero(v)
    {
    }

    lemma SymbolIffNear(v: int)
      requires Balanced() && InDomain(v)
      ensures ToSymbol(v).Some? <==> NearZero(v)
    {
      if Hint? {
        var all := |dsyms| + offset;
        var c := if 2 * v < all then v else v - all;
        DivModUnique(v - c, all, if c == v then 0 else 1, 0);
        HintSymbol(v, c);
      } else {
        HighBitsSymbol(v);
      }
    }

    /** A vector has symbols exactly when every coefficient is near zero. */
    lemma {:induction false} SymbolsIffNear(v: seq<int>)
      requires Balanced() && VectorInDomain(v)
      ensures ToSymbols(v).Some? <==> forall i | 0 <= i < |v| :: NearZero(v[i])
    {
      if v != [] {
        SymbolIffNear(v[0]);
        SymbolsIffNear(v[1..]);
        assert (forall i | 0 <= i < |v| :: NearZero(v[i])) <==> NearZero(v[0]) && forall i | 0 <= i < |v[1..]| :: NearZero(v[1..][i]) by {
          assert forall i | 1 <= i < |v| :: v[i] == v[1..][i - 1];
        }
      }
    }

    lemma {:induction false} SymbolsOfVector(v: seq<int>, symbols: seq<nat>)
      requires VectorInDomain(v)
      ensures ToSymbols(v) == Some(symbols) <==> ValidSymbols(dsyms, symbols) && FromSymbols(symbols) == v
    {
      assert |FromSymbols(symbols)| == |symbols|;
      if v != [] && symbols != [] {
        var s, rest := symbols[0], symbols[1..];
        SymbolsOfVector(v[1..], rest);
        assert FromSymbols(symbols) == [FromSymbol(s)] + FromSymbols(rest);
        assert [s] + rest == symbols;
        if ToSymbols(v) == Some(symbols) {
          SymbolInTable(v[0]);
          assert s == ToSymbol(v[0]).value;
        }
        if ValidSymbols(dsyms, symbols) && FromSymbols(symbols) == v {
          assert FromSymbol(s) == v[0] && FromSymbols(rest) == v[1..];
          SymbolMap(v[0], s);
        }
      }
    }

    lemma FromSymbolsInDomain(symbols: seq<nat>)
      requires ValidSymbols(dsyms, symbols)
      ensures VectorInDomain(FromSymbols(symbols))
    {
    }

    /** The encoder's result: nothing when a coefficient has no symbol or the stream outgrows the buffer. */
    ghost function Encode(v: seq<int>): Option<Bytes>
      requires Valid() && VectorInDomain(v)
    {
      match ToSymbols(v)
      case None => None
      case Some(symbols) =>
        SymbolsOfVector(v, symbols);
        var stream := Stream(dsyms, symbols);
        if |stream| <= |v| then Some(stream) else None
    }

    ghost function Decode(n: nat, bytes: Bytes): Option<seq<int>>
      requires Valid()
    {
      match DecodeStream(dsyms, n, bytes)
      case None => None
      case Some(symbols) => Some(FromSymbols(symbols))
    }

    /** On inputs no longer than the vector, decoding and encoding undo each other in both directions. */
    lemma DecodeIffEncode(n: nat, bytes: Bytes, v: seq<int>)
      requires Valid() && VectorInDomain(v) && |bytes| <= n
      ensures Decode(n, bytes) == Some(v) <==> |v| == n && Encode(v) == Some(bytes)
    {
      if Decode(n, bytes) == Some(v) {
        var symbols := DecodeStream(dsyms, n, bytes).value;
        StreamBijection(dsyms, n, bytes, symbols);
        SymbolsOfVector(v, symbols);
      }
      if |v| == n && Encode(v) == Some(bytes) {
        var symbols := ToSymbols(v).value;
        SymbolsOfVector(v, symbols);
        StreamBijection(dsyms, n, bytes, symbols);
      }
    }

    /** Encoding fails exactly for a coefficient away from zero or a stream longer than the vector. */
    lemma EncodeOutcome(v: seq<int>)
      requires Valid() && VectorInDomain(v)
      ensures ToSymbols(v).Some? <==> forall i | 0 <= i < |v| :: NearZero(v[i])
      ensures (exists i | 0 <= i < |v| :: !NearZero(v[i])) ==> Encode(v).None?
      ensures (forall i | 0 <= i < |v| :: NearZero(v[i]))
          ==> ValidSymbols(dsyms, ToSymbols(v).value)
              && (Encode(v).None? <==> |Stream(dsyms, ToSymbols(v).value)| > |v|)
    {
      hide NearZero, Stream;
      SymbolsIffNear(v);
      if ToSymbols(v).Some? {
        SymbolsOfVector(v, ToSymbols(v).value);
      }
    }

    lemma DecodedInDomain(n: nat, bytes: Bytes)
      requires Valid() && Decode(n, bytes).Some?
      ensures VectorInDomain(Decode(n, bytes).value) && |Decode(n, bytes).value| == n
    {
      var symbols := DecodeStream(dsyms, n, bytes).value;
      StreamBijection(dsyms, n, bytes, symbols);
      FromSymbolsInDomain(symbols);
    }

    lemma {:induction false} SymbolsOfSuffix(v: seq<int>, k: nat)
      requires VectorInDomain(v) && k <= |v| && ToSymbols(v).Some?
      ensures |ToSymbols(v).value| == |v|
      ensures ToSymbols(v[k..]) == Some(ToSymbols(v).value[k..])
    {
      if v != [] {
        SymbolsOfSuffix(v[1..], if k == 0 then 0 else k - 1);
        if k > 0 {
          assert v[k..] == v[1..][k - 1..];
          assert ToSymbols(v).value[k..] == ToSymbols(v[1..]).value[k - 1..];
        }
      }
      assert v[0..] == v && ToSymbols(v).value[0..] == ToSymbols(v).value;
    }

    /** The bytes shifted out grow as more symbols are put. */
    lemma {:induction false} OutputGrows(symbols: seq<nat>, k: nat)
      requires Valid() && ValidSymbols(dsyms, symbols) && k <= |symbols|
      ensures |EncodeSymbols(dsyms, symbols[k..]).1| <= |EncodeSymbols(dsyms, symbols).1|
    {
      if k > 0 {
        OutputGrows(symbols[1..], k - 1);
        assert symbols[k..] == symbols[1..][k - 1..];
        EntryValid(dsyms, symbols[0]);
        var (x, out) := EncodeSymbols(dsyms, symbols[1..]);
        EncodeNormalized(dsyms, symbols[1..]);
        assert |EncPut(x, out, dsyms[symbols[0]]).1| >= |out|;
      } else {
        assert symbols[0..] == symbols;
      }
    }
  }

  lemma Centred(v: int, c: int, all: int, k: int)
    requires 0 < all && 0 <= v < all && v - c == k * all && -all <= 2 * c < all
    ensures c == if 2 * v < all then v else v - all
  {
    if k >= 2 {
      MulMono(2, k, all);
    }
    if k <= -1 {
      MulMono(k, -1, all);
    }
  }

  /** The state and output after the coefficients from i on have been put. */
  ghost predicate Run(a: Alphabet, v: seq<int>, i: nat, r: int, out: Bytes) {
    && a.Valid() && a.VectorInDomain(v) && i <= |v| && Normalized(r) && a.ToSymbols(v[i..]).Some?
    && ValidSymbols(a.dsyms, a.ToSymbols(v[i..]).value)
    && (r, out) == EncodeSymbols(a.dsyms, a.ToSymbols(v[i..]).value)
  }

  lemma RunStep(a: Alphabet, v: seq<int>, i: nat, r: int, out: Bytes)
    requires Run(a, v, i, r, out) && 0 < i && a.ToSymbol(v[i - 1]).Some?
    ensures var s := a.ToSymbol(v[i - 1]).value;
            s < |a.dsyms| && ValidSymbol(a.dsyms[s]) && Represents(a.esyms[s], a.dsyms[s])
            && var (r', out') := EncPut(r, out, a.dsyms[s]); Run(a, v, i - 1, r', out')
  {
    var s := a.ToSymbol(v[i - 1]).value;
    a.SymbolInTable(v[i - 1]);
    assert EntryOk(a.esyms, a.dsyms, s);
    EncPutKeepsInterval(r, out, a.dsyms[s]);
    var before := a.ToSymbols(v[i..]).value;
    assert v[i - 1..][0] == v[i - 1] && v[i - 1..][1..] == v[i..];
    assert ([s] + before)[1..] == before;
  }

  /** A coefficient without a symbol, or output within four bytes of the buffer's size, is a failure. */
  lemma RunFails(a: Alphabet, v: seq<int>, i: nat)
    requires a.Valid() && a.VectorInDomain(v) && i <= |v|
    requires a.ToSymbols(v[i..]) == None
             || exists r, out :: Run(a, v, i, r, out) && |out| > |v| - 4
    ensures a.Encode(v) == None
  {
    if a.ToSymbols(v).Some? {
      a.SymbolsOfSuffix(v, i);
      a.SymbolsOfVector(v, a.ToSymbols(v).value);
      a.OutputGrows(a.ToSymbols(v).value, i);
    }
  }

  lemma RunSucceeds(a: Alphabet, v: seq<int>, r: int, out: Bytes)
    requires Run(a, v, 0, r, out) && |out| <= |v| - 4
    ensures a.Encode(v) == Some(Store32(r) + out)
  {
    assert v[0..] == v;
  }

  /** s with src written over it at offset. */
  function Splice(s: Bytes, offset: nat, src: Bytes): Bytes
    requires offset + |src| <= |s|
  {
    s[..offset] + src + s[offset + |src|..]
  }

  method Memcpy(dst: array<byte>, offset: nat, src: Bytes)
    requires offset + |src| <= dst.Length
    modifies dst
    ensures dst[..] == Splice(old(dst[..]), offset, src)
  {
    for i := 0 to |src|
      invariant forall j | 0 <= j < i :: dst[offset + j] == src[j]
      invariant forall j | 0 <= j < dst.Length && !(offset <= j < offset + i) :: dst[j] == old(dst[j])
    {
      dst[offset + i] := src[i];
    }
    assert dst[..] == Splice(old(dst[..]), offset, src);
  }

  // crypto_haetae_encode_h and crypto_haetae_encode_hb_z1: the last coefficient is put first into a
  // buffer as long as the vector; the size 0 reports failure.
  method EncodeVector(buf: array<byte>, v: seq<int>, a: Alphabet) returns (size: nat)
    requires a.Valid() && a.VectorInDomain(v) && 4 <= |v| <= 0xFFFF && |v| <= buf.Length
    modifies buf
    ensures match a.Encode(v)
            case None => size == 0
            case Some(bytes) => size == |bytes| && buf[..size] == bytes && 4 <= size
    ensures a.ToSymbols(v).Some? <==> forall i | 0 <= i < |v| :: a.NearZero(v[i])
    ensures (exists i | 0 <= i < |v| :: !a.NearZero(v[i])) ==> size == 0
    ensures (forall i | 0 <= i < |v| :: a.NearZero(v[i]))
        ==> ValidSymbols(a.dsyms, a.ToSymbols(v).value)
            && (size == 0 <==> |Stream(a.dsyms, a.ToSymbols(v).value)| > |v|)
  {
    hide Alphabet.NearZero, Alphabet.Balanced, Stream;
    a.EncodeOutcome(v);
    var encoding := new byte[|v|];
    var ptr := |v|;
    var r := RANS_BYTE_L;
    var i := |v|;
    assert v[i..] == [] && encoding[ptr..] == [];
    while i > 0
      invariant 0 <= i <= |v| && 4 <= ptr <= |v| && Run(a, v, i, r, encoding[ptr..])
    {
      var symbol := a.ToSymbol(v[i - 1]);
      if symbol == None {
        assert v[i - 1..][0] == v[i - 1];
        RunFails(a, v, i - 1);
        return 0;
      }
      RunStep(a, v, i, r, encoding[ptr..]);
      r, ptr := RansEncPutSymbol(r, encoding, ptr, a.esyms[symbol.value], a.dsyms[symbol.value]);
      i := i - 1;
      if ptr < 4 {
        RunFails(a, v, i);
        return 0;
      }
    }
    RunSucceeds(a, v, r, encoding[ptr..]);
    ptr := RansEncFlush(r, encoding, ptr);
    size := |v| - ptr;
    Memcpy(buf, 0, encoding[ptr..]);
  }

  // crypto_haetae_decode_h and crypto_haetae_decode_hb_z1. The slot table only holds symbols of the
  // table, so the source's check of the symbol never fires.
  method DecodeVector(out: array<int>, buf: Bytes, a: Alphabet) returns (error: nat)
    requires a.Valid()
    modifies out
    ensures match a.Decode(out.Length, buf)
            case None => error == 1
            case Some(v) => error == 0 && out[..] == v
  {
    var r: nat;
    var ptr: nat;
    error, r, ptr := RansDecInit(buf, 0);
    assert buf[0..] == buf;
    if error != 0 {
      return;
    }
    ghost var run := DecodeSymbols(a.dsyms, out.Length, r, buf[4..]);
    assert [] + run.0 == run.0 && a.FromSymbols([]) == [];
    var i := 0;
    ghost var symbols: seq<nat> := [];
    while i < out.Length
      invariant 0 <= i <= out.Length && ptr <= |buf| && out[..i] == a.FromSymbols(symbols)
      invariant Popped(a, run, symbols, out.Length - i, r, buf[ptr..])
    {
      SymbolOfSlot(a.dsyms, r % SCALE, 0);
      var s := SymbolOf(a.dsyms, r % SCALE);
      assert s < |a.dsyms|;
      out[i] := a.FromSymbol(s);
      PoppedStep(a, run, symbols, out.Length - i, r, buf[ptr..]);
      assert a.FromSymbols(symbols + [s]) == a.FromSymbols(symbols) + [a.FromSymbol(s)];
      r, ptr := RansDecAdvance(r, buf, ptr, a.dsyms[s]);
      symbols := symbols + [s];
      i := i + 1;
    }
    assert symbols + [] == symbols && out[..] == out[..i];
    error := RansDecVerify(r);
    if error != 0 {
      return;
    }
    if ptr != |buf| {
      return 1;
    }
    assert buf[ptr..] == [];
  }

  /** The symbols popped so far, completed by the rest of the run, are the whole run. */
  ghost predicate Popped(a: Alphabet, run: (seq<nat>, nat, Bytes), symbols: seq<nat>, n: nat, r: nat, input: Bytes)
  {
    a.Valid() && var rest := DecodeSymbols(a.dsyms, n, r, input); run == (symbols + rest.0, rest.1, rest.2)
  }

  lemma PoppedStep(a: Alphabet, run: (seq<nat>, nat, Bytes), symbols: seq<nat>, n: nat, r: nat, input: Bytes)
    requires 0 < n && Popped(a, run, symbols, n, r, input)
    ensures a.dsyms != []
    ensures var s := SymbolOf(a.dsyms, r % SCALE);
            s < |a.dsyms| && InSlot(r, a.dsyms[s])
            && var (r', input') := DecAdvance(r, input, a.dsyms[s]); Popped(a, run, symbols + [s], n - 1, r', input')
  {
    SymbolOfSlot(a.dsyms, r % SCALE, 0);
    var s := SymbolOf(a.dsyms, r % SCALE);
    var (r', input') := DecAdvance(r, input, a.dsyms[s]);
    var rest := DecodeSymbols(a.dsyms, n - 1, r', input');
    assert symbols + ([s] + rest.0) == symbols + [s] + rest.0;
  }
}
