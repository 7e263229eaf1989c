/** The wire format of a HAETAE signature: challenge bits, low bits of z1, two lengths, the two entropy-coded
    vectors and zero padding. */
module Packing {
  import opened Arith
  import opened Rans
  import opened RansTables
  import opened Encoding
  import Reduce

  const N := 256

  datatype Parameters = Parameters(k: nat, l: nat, alphaHint: nat, signatureBytes: nat,
                                   baseHighBits: nat, baseHint: nat, highBits: Alphabet, hint: Alphabet)
  {
    /** What the packing code relies on about a parameter set. */
    ghost predicate Valid() {
      && highBits.HighBits? && highBits.Valid() && hint.Hint? && hint.Valid()
      && 1 <= k && 1 <= l && N * k <= 0xFFFF && N * l <= 0xFFFF
      && 0 < alphaHint && |hint.dsyms| + hint.offset == (Reduce.DOUBLE_Q - 2) / alphaHint
      && 34 + N * l <= signatureBytes
      && baseHighBits + 255 <= N * l && baseHint + 255 <= N * k
    }
  }

  const HAETAE_120 := Parameters(2, 4, 512, 1474, 132, 7,
                                 HighBits(6, ESYMS_HIGH_2, DSYMS_HIGH_2), Hint(239, ESYMS_HINT_2, DSYMS_HINT_2))
  const HAETAE_180 := Parameters(3, 6, 512, 2349, 376, 127,
                                 HighBits(8, ESYMS_HIGH_3, DSYMS_HIGH_3), Hint(235, ESYMS_HINT_3, DSYMS_HINT_3))
  const HAETAE_260 := Parameters(4, 7, 256, 2948, 501, 358,
                                 HighBits(9, ESYMS_HIGH_5, DSYMS_HIGH_5), Hint(471, ESYMS_HINT_5, DSYMS_HINT_5))

  lemma TableLengths()
    ensures |DSYMS_HINT_2| == 13 && |DSYMS_HIGH_2| == 13 && |DSYMS_HINT_3| == 17 && |DSYMS_HIGH_3| == 17
    ensures |DSYMS_HINT_5| == 33 && |DSYMS_HIGH_5| == 19
  {
  }

  lemma AlphabetValid(esyms: seq<EncSymbol>, dsyms: Table, offset: nat)
    requires Consistent(esyms, dsyms) && |dsyms| <= 256 && |dsyms| % 2 == 1
    ensures Hint(offset, esyms, dsyms).Valid()
    ensures 2 * offset + 1 == |dsyms| ==> HighBits(offset, esyms, dsyms).Valid()
  {
  }

  lemma ShippedParametersValid()
    ensures HAETAE_120.Valid() && HAETAE_180.Valid() && HAETAE_260.Valid()
  {
    hide Consistent;
    ShippedTablesConsistent();
    TableLengths();
    AlphabetValid(ESYMS_HINT_2, DSYMS_HINT_2, 239);
    AlphabetValid(ESYMS_HIGH_2, DSYMS_HIGH_2, 6);
    AlphabetValid(ESYMS_HINT_3, DSYMS_HINT_3, 235);
    AlphabetValid(ESYMS_HIGH_3, DSYMS_HIGH_3, 8);
    AlphabetValid(ESYMS_HINT_5, DSYMS_HINT_5, 471);
    AlphabetValid(ESYMS_HIGH_5, DSYMS_HIGH_5, 9);
  }

  /** The four things a signature carries, vectors flattened as the code lays them out. */
  datatype Parts = Parts(c: seq<int>, low: seq<int>, high: seq<int>, h: seq<int>)
  {
    predicate Shape(p: Parameters) {
      |c| == N && |low| == N * p.l && |high| == N * p.l && |h| == N * p.k
    }

    /** The ranges signing produces: bits, centred low bytes, and hints below (2Q - 2) / alpha. */
    predicate Canonical(p: Parameters) {
      && Shape(p)
      && (forall i | 0 <= i < |c| :: 0 <= c[i] <= 1)
      && (forall i | 0 <= i < |low| :: -128 <= low[i] <= 127)
      && p.hint.VectorInDomain(h)
    }
  }

  // ---------- bits and bytes ----------

  function BitOf(b: nat, t: nat): int {
    if t == 0 then b % 2 else BitOf(b / 2, t - 1)
  }

  /** A right shift by t and a mask. */
  lemma {:induction false} BitOfShift(b: nat, t: nat)
    ensures 0 < Pow(2, t) && BitOf(b, t) == b / Pow(2, t) % 2
  {
    if t > 0 {
      BitOfShift(b / 2, t - 1);
      ShiftTwice(b, Pow(2, t - 1));
    }
  }

  lemma ShiftTwice(b: nat, w: int)
    requires 0 < w
    ensures b / 2 / w == b / (2 * w)
  {
    var q := b / 2 / w;
    DivMod(b / 2, w);
    DivModUnique(b, 2 * w, q, 2 * (b / 2 % w) + b % 2);
  }

  function FromBits(bits: seq<int>): int {
    if bits == [] then 0 else bits[0] % 2 + 2 * FromBits(bits[1..])
  }

  /** b |= (v & 1) << t. */
  function OrBit(b: nat, t: nat, v: int): int {
    if v % 2 == 1 && BitOf(b, t) == 0 then b + Pow(2, t) else b
  }

  lemma {:induction false} FromBitsRange(bits: seq<int>)
    ensures 0 <= FromBits(bits) < Pow(2, |bits|)
  {
    if bits != [] {
      FromBitsRange(bits[1..]);
    }
  }

  lemma {:induction false} FromBitsAppend(bits: seq<int>, v: int)
    ensures 0 <= FromBits(bits) && BitOf(FromBits(bits), |bits|) == 0
    ensures FromBits(bits + [v]) == OrBit(FromBits(bits), |bits|, v)
  {
    if bits == [] {
      assert FromBits([v]) == v % 2 + 2 * FromBits([]);
    } else {
      FromBitsAppend(bits[1..], v);
      assert (bits + [v])[1..] == bits[1..] + [v];
    }
  }

  lemma {:induction false} BitsOfFromBits(bits: seq<int>, t: nat)
    requires t < |bits|
    ensures 0 <= FromBits(bits) && BitOf(FromBits(bits), t) == bits[t] % 2
  {
    FromBitsRange(bits[1..]);
    if t > 0 {
      BitsOfFromBits(bits[1..], t - 1);
    }
  }

  lemma {:induction false} FromBitsOfBits(b: nat, bits: seq<int>)
    requires b < Pow(2, |bits|) && forall t | 0 <= t < |bits| :: bits[t] == BitOf(b, t)
    ensures FromBits(bits) == b
  {
    if bits != [] {
      forall t | 0 <= t < |bits[1..]|
        ensures bits[1..][t] == BitOf(b / 2, t)
      {
        assert bits[t + 1] == BitOf(b, t + 1);
      }
      FromBitsOfBits(b / 2, bits[1..]);
    }
  }

  /** Byte j of a bit string of which the first i bits have been written. */
  function PartialByte(c: seq<int>, i: nat, j: nat): (b: byte)
    requires i <= |c|
  {
    if 8 * j >= i then 0
    else
      var bits := if i < 8 * j + 8 then c[8 * j..i] else c[8 * j..8 * j + 8];
      FromBitsRange(bits);
      PowMono(2, |bits|, 8);
      Pow2Values();
      FromBits(bits)
  }

  function BitBytes(c: seq<int>): Bytes {
    seq(|c| / 8, j requires 0 <= j < |c| / 8 => PartialByte(c, |c|, j))
  }

  function UnpackBits(bytes: Bytes): seq<int> {
    seq(8 * |bytes|, i requires 0 <= i < 8 * |bytes| => BitOf(bytes[i / 8], i % 8))
  }

  lemma BitOfBitBytes(c: seq<int>, i: nat)
    requires i < |c| && |c| % 8 == 0
    ensures BitOf(BitBytes(c)[i / 8], i % 8) == c[i] % 2
  {
    var j := i / 8;
    var bits := c[8 * j..8 * j + 8];
    assert BitBytes(c)[j] == FromBits(bits) && bits[i % 8] == c[i];
    BitsOfFromBits(bits, i % 8);
  }

  lemma BitBytesOfBits(bytes: Bytes, j: nat)
    requires j < |bytes|
    ensures var c := UnpackBits(bytes); |c| == 8 * |bytes| && BitBytes(c)[j] == bytes[j]
  {
    var c := UnpackBits(bytes);
    var bits := c[8 * j..8 * j + 8];
    assert BitBytes(c)[j] == FromBits(bits);
    forall t | 0 <= t < 8
      ensures bits[t] == BitOf(bytes[j], t)
    {
      assert bits[t] == c[8 * j + t] && (8 * j + t) / 8 == j && (8 * j + t) % 8 == t;
    }
    Pow2Values();
    FromBitsOfBits(bytes[j], bits);
  }

  lemma BitsRoundTrip(c: seq<int>, bytes: Bytes)
    requires |c| == 8 * |bytes| && forall i | 0 <= i < |c| :: 0 <= c[i] <= 1
    ensures BitBytes(c) == bytes <==> UnpackBits(bytes) == c
  {
    if BitBytes(c) == bytes {
      forall i | 0 <= i < |c|
        ensures UnpackBits(bytes)[i] == c[i]
      {
        BitOfBitBytes(c, i);
      }
    }
    if UnpackBits(bytes) == c {
      forall j | 0 <= j < |bytes|
        ensures BitBytes(c)[j] == bytes[j]
      {
        BitBytesOfBits(bytes, j);
      }
    }
  }

  lemma UnpackedBits(bytes: Bytes)
    ensures forall i | 0 <= i < 8 * |bytes| :: 0 <= UnpackBits(bytes)[i] <= 1
  {
    forall i | 0 <= i < 8 * |bytes|
      ensures 0 <= UnpackBits(bytes)[i] <= 1
    {
      BitRange(bytes[i / 8], i % 8);
    }
  }

  lemma {:induction false} BitRange(b: nat, t: nat)
    ensures 0 <= BitOf(b, t) <= 1
  {
    if t > 0 {
      BitRange(b / 2, t - 1);
    }
  }

  /** (uint8_t)v, and its reading as a signed value. */
  function LowByte(v: int): byte {
    v % 256
  }

  function SignedByte(b: byte): int {
    b - b / 128 * 256
  }

  function LowBytes(low: seq<int>): Bytes {
    seq(|low|, i requires 0 <= i < |low| => LowByte(low[i]))
  }

  function SignedBytes(bytes: Bytes): seq<int> {
    seq(|bytes|, i requires 0 <= i < |bytes| => SignedByte(bytes[i]))
  }

  lemma ByteRoundTrip(v: int, b: byte)
    requires -128 <= v <= 127
    ensures LowByte(v) == b <==> SignedByte(b) == v
  {
  }

  lemma LowBytesRoundTrip(low: seq<int>, bytes: Bytes)
    requires forall i | 0 <= i < |low| :: -128 <= low[i] <= 127
    ensures LowBytes(low) == bytes <==> SignedBytes(bytes) == low
  {
    if |low| == |bytes| {
      forall i | 0 <= i < |low|
        ensures LowBytes(low)[i] == bytes[i] <==> SignedBytes(bytes)[i] == low[i]
      {
        ByteRoundTrip(low[i], bytes[i]);
      }
    } else {
      assert |LowBytes(low)| != |bytes| && |SignedBytes(bytes)| != |low|;
    }
  }

  function Zeros(n: nat): Bytes {
    seq(n, _ => 0)
  }

  // ---------- the format ----------

  /** The fields in wire order: challenge, low bits, the two lengths, the two encodings, padding. */
  ghost function Assemble(p: Parameters, a: Bytes, b: Bytes, x: Bytes, y: Bytes): Option<Bytes> {
    if |x| < p.baseHighBits || |y| < p.baseHint || |x| > p.baseHighBits + 255 || |y| > p.baseHint + 255
       || 34 + N * p.l + |x| + |y| > p.signatureBytes
    then None
    else Some(a + b + [|x| - p.baseHighBits, |y| - p.baseHint] + x + y
              + Zeros(p.signatureBytes - (34 + N * p.l + |x| + |y|)))
  }

  ghost function Pack(p: Parameters, parts: Parts): Option<Bytes>
    requires p.Valid() && parts.Shape(p) && p.hint.VectorInDomain(parts.h)
  {
    match (p.highBits.Encode(parts.high), p.hint.Encode(parts.h))
    case (Some(x), Some(y)) => Assemble(p, BitBytes(parts.c), LowBytes(parts.low), x, y)
    case _ => None
  }

  ghost function Interpret(p: Parameters, a: Bytes, b: Bytes, x: Bytes, y: Bytes, z: Bytes): Option<Parts>
    requires p.Valid()
  {
    match (p.highBits.Decode(N * p.l, x), p.hint.Decode(N * p.k, y))
    case (Some(high), Some(h)) =>
      if z == Zeros(|z|) then Some(Parts(UnpackBits(a), SignedBytes(b), high, h)) else None
    case _ => None
  }

  ghost function Unpack(p: Parameters, sig: Bytes): Option<Parts>
    requires p.Valid() && |sig| == p.signatureBytes
  {
    var o := 34 + N * p.l;
    var hb, hh := sig[o - 2] + p.baseHighBits, sig[o - 1] + p.baseHint;
    if p.signatureBytes < o + hb + hh then None
    else Interpret(p, sig[..32], sig[32..o - 2], sig[o..o + hb], sig[o + hb..o + hb + hh], sig[o + hb + hh..])
  }

  /** What is interpreted has the ranges signing produces, and its encodings are the bytes read. */
  lemma InterpretIff(p: Parameters, a: Bytes, b: Bytes, x: Bytes, y: Bytes, z: Bytes, parts: Parts)
    requires p.Valid() && |a| == 32 && |b| == N * p.l && |x| <= N * p.l && |y| <= N * p.k
    ensures Interpret(p, a, b, x, y, z) == Some(parts)
            <==> && parts.Canonical(p) && z == Zeros(|z|) && BitBytes(parts.c) == a && LowBytes(parts.low) == b
                 && p.highBits.Encode(parts.high) == Some(x) && p.hint.Encode(parts.h) == Some(y)
  {
    if Interpret(p, a, b, x, y, z) == Some(parts) {
      p.highBits.DecodedInDomain(N * p.l, x);
      p.hint.DecodedInDomain(N * p.k, y);
      UnpackedBits(a);
      assert parts.Canonical(p);
    }
    if parts.Canonical(p) {
      p.highBits.DecodeIffEncode(N * p.l, x, parts.high);
      p.hint.DecodeIffEncode(N * p.k, y, parts.h);
      assert |parts.c| == 8 * |a|;
      BitsRoundTrip(parts.c, a);
      LowBytesRoundTrip(parts.low, b);
    }
  }

  lemma FieldsOf(sig: Bytes, a: Bytes, b: Bytes, m: Bytes, x: Bytes, y: Bytes, z: Bytes)
    requires sig == a + b + m + x + y + z && |m| == 2
    ensures var o := |a| + |b| + 2;
            && sig[..|a|] == a && sig[|a|..o - 2] == b && sig[o - 2] == m[0] && sig[o - 1] == m[1]
            && sig[o..o + |x|] == x && sig[o + |x|..o + |x| + |y|] == y && sig[o + |x| + |y|..] == z
  {
  }

  lemma SplitFields(sig: Bytes, o: nat, hb: nat, hh: nat)
    requires 34 <= o && o + hb + hh <= |sig|
    ensures sig == sig[..32] + sig[32..o - 2] + [sig[o - 2], sig[o - 1]]
                   + sig[o..o + hb] + sig[o + hb..o + hb + hh] + sig[o + hb + hh..]
  {
  }

  lemma UnpackFields(p: Parameters, sig: Bytes, a: Bytes, b: Bytes, x: Bytes, y: Bytes)
    requires p.Valid() && |sig| == p.signatureBytes && |a| == 32 && |b| == N * p.l
    requires Assemble(p, a, b, x, y) == Some(sig)
    ensures Unpack(p, sig) == Interpret(p, a, b, x, y, Zeros(p.signatureBytes - (34 + N * p.l + |x| + |y|)))
  {
    hide Interpret, Alphabet.Valid, UnpackBits, SignedBytes;
    FieldsOf(sig, a, b, [|x| - p.baseHighBits, |y| - p.baseHint], x, y,
             Zeros(p.signatureBytes - (34 + N * p.l + |x| + |y|)));
  }

  lemma UnpackAfterPack(p: Parameters, parts: Parts, sig: Bytes)
    requires p.Valid() && parts.Canonical(p) && |sig| == p.signatureBytes && Pack(p, parts) == Some(sig)
    ensures Unpack(p, sig) == Some(parts)
  {
    var a, b := BitBytes(parts.c), LowBytes(parts.low);
    var x, y := p.highBits.Encode(parts.high).value, p.hint.Encode(parts.h).value;
    UnpackFields(p, sig, a, b, x, y);
    InterpretIff(p, a, b, x, y, Zeros(p.signatureBytes - (34 + N * p.l + |x| + |y|)), parts);
  }

  lemma PackAfterUnpack(p: Parameters, parts: Parts, sig: Bytes)
    requires p.Valid() && |sig| == p.signatureBytes && Unpack(p, sig) == Some(parts)
    ensures parts.Canonical(p) && Pack(p, parts) == Some(sig)
  {
    hide Interpret, Alphabet.Valid, Alphabet.Encode, BitBytes, LowBytes;
    var o := 34 + N * p.l;
    var hb, hh := sig[o - 2] + p.baseHighBits, sig[o - 1] + p.baseHint;
    InterpretIff(p, sig[..32], sig[32..o - 2], sig[o..o + hb], sig[o + hb..o + hb + hh], sig[o + hb + hh..], parts);
    SplitFields(sig, o, hb, hh);
  }

  /** Packing is a bijection between what it accepts and what unpacking accepts, byte for byte. */
  lemma PackUnpackBijection(p: Parameters, parts: Parts, sig: Bytes)
    requires p.Valid() && |sig| == p.signatureBytes
    ensures Unpack(p, sig) == Some(parts) <==> parts.Canonical(p) && Pack(p, parts) == Some(sig)
  {
    if Unpack(p, sig) == Some(parts) {
      PackAfterUnpack(p, parts, sig);
    }
    if parts.Canonical(p) && Pack(p, parts) == Some(sig) {
      UnpackAfterPack(p, parts, sig);
    }
  }

  /** After the low bits come the two encoded lengths, less what the parameter set takes for granted. */
  lemma LengthBytes(p: Parameters, parts: Parts, sig: Bytes)
    requires p.Valid() && parts.Shape(p) && p.hint.VectorInDomain(parts.h) && Pack(p, parts) == Some(sig)
    ensures |sig| == p.signatureBytes && p.highBits.Encode(parts.high).Some? && p.hint.Encode(parts.h).Some?
    ensures sig[32 + N * p.l] + p.baseHighBits == |p.highBits.Encode(parts.high).value|
    ensures sig[33 + N * p.l] + p.baseHint == |p.hint.Encode(parts.h).value|
  {
    hide Alphabet.Valid, Alphabet.Encode;
    var a, b := BitBytes(parts.c), LowBytes(parts.low);
    var x, y := p.highBits.Encode(parts.high).value, p.hint.Encode(parts.h).value;
    FieldsOf(sig, a, b, [|x| - p.baseHighBits, |y| - p.baseHint], x, y,
             Zeros(p.signatureBytes - (34 + N * p.l + |x| + |y|)));
  }

  /** The shipped sets: 256 l low bytes, and lengths counted from these bases in these signature sizes. */
  lemma ShippedLayout(parts: Parts, sig: Bytes)
    ensures var p := HAETAE_120; parts.Shape(p) && |sig| == p.signatureBytes ==>
      |parts.high| == 1024 && |parts.h| == 512 && |sig| == 1474 && (p.baseHighBits, p.baseHint) == (132, 7)
    ensures var p := HAETAE_180; parts.Shape(p) && |sig| == p.signatureBytes ==>
      |parts.high| == 1536 && |parts.h| == 768 && |sig| == 2349 && (p.baseHighBits, p.baseHint) == (376, 127)
    ensures var p := HAETAE_260; parts.Shape(p) && |sig| == p.signatureBytes ==>
      |parts.high| == 1792 && |parts.h| == 1024 && |sig| == 2948 && (p.baseHighBits, p.baseHint) == (501, 358)
  {
  }

  // ---------- the packing code ----------

  method Clear(sig: array<byte>)
    modifies sig
    ensures sig[..] == Zeros(sig.Length)
  {
    for i := 0 to sig.Length
      invariant sig[..i] == Zeros(i)
    {
      sig[i] := 0;
    }
  }

  lemma PartialByteStep(c: seq<int>, i: nat, j: nat)
    requires i < |c|
    ensures j != i / 8 ==> PartialByte(c, i + 1, j) == PartialByte(c, i, j)
    ensures j == i / 8 ==> PartialByte(c, i + 1, j) == OrBit(PartialByte(c, i, j), i % 8, c[i])
  {
    if j == i / 8 {
      var bits := c[8 * j..i];
      FromBitsAppend(bits, c[i]);
      assert c[8 * j..i + 1] == bits + [c[i]];
      assert i == 8 * j ==> bits == [];
    }
  }

  // Bit i of the challenge goes to bit i % 8 of byte i / 8.
  method PackChallenge(sig: array<byte>, c: seq<int>)
    requires |c| == N && 32 <= sig.Length && sig[..] == Zeros(sig.Length)
    modifies sig
    ensures sig[..] == BitBytes(c) + Zeros(sig.Length - 32)
  {
    for i := 0 to N
      invariant forall j | 0 <= j < 32 :: sig[j] == PartialByte(c, i, j)
      invariant forall j | 32 <= j < sig.Length :: sig[j] == 0
    {
      forall j | 0 <= j < 32
        ensures j != i / 8 ==> PartialByte(c, i + 1, j) == PartialByte(c, i, j)
        ensures j == i / 8 ==> PartialByte(c, i + 1, j) == OrBit(PartialByte(c, i, j), i % 8, c[i])
      {
        PartialByteStep(c, i, j);
      }
      var byteIndex := i / 8;
      sig[byteIndex] := OrBit(sig[byteIndex], i % 8, c[i]);
    }
    assert sig[..] == BitBytes(c) + Zeros(sig.Length - 32);
  }

  lemma SpliceZeros(prefix: Bytes, n: nat, src: Bytes)
    requires |src| <= n
    ensures Splice(prefix + Zeros(n), |prefix|, src) == prefix + src + Zeros(n - |src|)
  {
  }

  method PolyDecomposedPack(sig: array<byte>, offset: nat, coeffs: seq<int>)
    requires offset + |coeffs| <= sig.Length
    modifies sig
    ensures sig[..] == Splice(old(sig[..]), offset, LowBytes(coeffs))
  {
    for i := 0 to |coeffs|
      invariant forall j | 0 <= j < i :: sig[offset + j] == LowByte(coeffs[j])
      invariant forall j | 0 <= j < sig.Length && !(offset <= j < offset + i) :: sig[j] == old(sig[j])
    {
      sig[offset + i] := LowByte(coeffs[i]);
    }
    assert sig[..] == Splice(old(sig[..]), offset, LowBytes(coeffs));
  }

  method PackLowBits(sig: array<byte>, low: seq<int>, l: nat, ghost prefix: Bytes)
    requires |low| == N * l && |prefix| == 32 && 32 + N * l <= sig.Length
    requires sig[..] == prefix + Zeros(sig.Length - 32)
    modifies sig
    ensures sig[..] == prefix + LowBytes(low) + Zeros(sig.Length - 32 - N * l)
  {
    assert prefix + LowBytes(low[..0]) == prefix;
    for i := 0 to l
      invariant sig[..] == prefix + LowBytes(low[..N * i]) + Zeros(sig.Length - 32 - N * i)
    {
      ghost var done := prefix + LowBytes(low[..N * i]);
      PolyDecomposedPack(sig, 32 + N * i, low[N * i..N * i + N]);
      SpliceZeros(done, sig.Length - 32 - N * i, LowBytes(low[N * i..N * i + N]));
      assert done + LowBytes(low[N * i..N * i + N]) == prefix + LowBytes(low[..N * (i + 1)]);
    }
    assert low[..N * l] == low;
  }

  // Returns 1 in case the signature packing failed; otherwise 0.
  method PackSig(sig: array<byte>, parts: Parts, p: Parameters) returns (error: nat)
    requires p.Valid() && parts.Shape(p) && p.hint.VectorInDomain(parts.h) && sig.Length == p.signatureBytes
    modifies sig
    ensures match Pack(p, parts)
            case None => error == 1
            case Some(bytes) => error == 0 && sig[..] == bytes
  {
    Clear(sig);
    PackChallenge(sig, parts.c);
    PackLowBits(sig, parts.low, p.l, BitBytes(parts.c));
    var encodedHigh := new byte[N * p.l];
    var encodedHint := new byte[N * p.k];
    var sizeHigh := EncodeVector(encodedHigh, parts.high, p.highBits);
    var sizeHint := EncodeVector(encodedHint, parts.h, p.hint);
    if sizeHint == 0 || sizeHigh == 0 {
      return 1;
    }
    error := PackEncoded(sig, BitBytes(parts.c), LowBytes(parts.low), encodedHigh[..sizeHigh], encodedHint[..sizeHint], p);
  }

  // Sections 3 and 4 of the packing: the length checks, the two length bytes and the two encodings.
  method PackEncoded(sig: array<byte>, ghost a: Bytes, ghost b: Bytes, x: Bytes, y: Bytes, p: Parameters)
      returns (error: nat)
    requires sig.Length == p.signatureBytes && |a| == 32 && |b| == N * p.l && 34 + N * p.l <= p.signatureBytes
    requires sig[..] == a + b + Zeros(sig.Length - 32 - N * p.l)
    modifies sig
    ensures match Assemble(p, a, b, x, y)
            case None => error == 1
            case Some(bytes) => error == 0 && sig[..] == bytes
  {
    if |y| < p.baseHint || |x| < p.baseHighBits || |y| > p.baseHint + 255 || |x| > p.baseHighBits + 255 {
      return 1;
    }
    var offset := 32 + N * p.l;
    if offset + 2 + |x| + |y| > p.signatureBytes {
      return 1;
    }
    ghost var rest := sig.Length - offset;
    ghost var s0, m := a + b, [|x| - p.baseHighBits, |y| - p.baseHint];
    ghost var s1 := s0 + m;
    ghost var s2 := s1 + x;
    SpliceZeros(s0, rest, m);
    SpliceZeros(s1, rest - 2, x);
    SpliceZeros(s2, rest - 2 - |x|, y);
    sig[offset], sig[offset + 1] := |x| - p.baseHighBits, |y| - p.baseHint;
    assert sig[..] == Splice(s0 + Zeros(rest), offset, m);
    offset := offset + 2;
    Memcpy(sig, offset, x);
    offset := offset + |x|;
    Memcpy(sig, offset, y);
    return 0;
  }

  // ---------- the unpacking code ----------

  method UnpackChallenge(c: array<int>, sig: Bytes)
    requires c.Length == N && 32 <= |sig|
    modifies c
    ensures c[..] == UnpackBits(sig[..32])
    ensures forall i | 0 <= i < N :: 0 < Pow(2, i % 8) && c[i] == sig[i / 8] / Pow(2, i % 8) % 2
  {
    for i := 0 to N
      invariant forall j | 0 <= j < i :: c[j] == BitOf(sig[j / 8], j % 8)
    {
      c[i] := BitOf(sig[i / 8], i % 8);
    }
    assert c[..] == UnpackBits(sig[..32]);
    forall i | 0 <= i < N
      ensures 0 < Pow(2, i % 8) && c[i] == sig[i / 8] / Pow(2, i % 8) % 2
    {
      BitOfShift(sig[i / 8], i % 8);
    }
  }

  method PolyDecomposedUnpack(coeffs: array<int>, offset: nat, buf: Bytes)
    requires offset + |buf| <= coeffs.Length
    modifies coeffs
    ensures forall j | 0 <= j < |buf| :: coeffs[offset + j] == SignedByte(buf[j])
    ensures forall j | 0 <= j < coeffs.Length && !(offset <= j < offset + |buf|) :: coeffs[j] == old(coeffs[j])
  {
    for i := 0 to |buf|
      invariant forall j | 0 <= j < i :: coeffs[offset + j] == SignedByte(buf[j])
      invariant forall j | 0 <= j < coeffs.Length && !(offset <= j < offset + i) :: coeffs[j] == old(coeffs[j])
    {
      coeffs[offset + i] := SignedByte(buf[i]);
    }
  }

  method UnpackLowBits(low: array<int>, buf: Bytes, l: nat)
    requires low.Length == N * l == |buf|
    modifies low
    ensures low[..] == SignedBytes(buf)
  {
    for i := 0 to l
      invariant forall j | 0 <= j < N * i :: low[j] == SignedByte(buf[j])
    {
      PolyDecomposedUnpack(low, N * i, buf[N * i..N * i + N]);
      forall j | N * i <= j < N * (i + 1)
        ensures low[j] == SignedByte(buf[j])
      {
        assert low[N * i + (j - N * i)] == SignedByte(buf[N * i..N * i + N][j - N * i]);
      }
    }
    assert low[..] == SignedBytes(buf);
  }

  method CheckPadding(pad: Bytes) returns (ok: bool)
    ensures ok == (pad == Zeros(|pad|))
  {
    for i := 0 to |pad|
      invariant forall j | 0 <= j < i :: pad[j] == 0
    {
      if pad[i] != 0 {
        assert pad[i] != Zeros(|pad|)[i];
        return false;
      }
    }
    return true;
  }

  // Returns 1 in case of a malformed signature; otherwise 0.
  method UnpackSig(c: array<int>, low: array<int>, high: array<int>, h: array<int>, sig: Bytes, p: Parameters)
      returns (error: nat)
    requires p.Valid() && |sig| == p.signatureBytes
    requires c.Length == N && low.Length == N * p.l && high.Length == N * p.l && h.Length == N * p.k
    requires c != low && c != high && c != h && low != high && low != h && high != h
    modifies c, low, high, h
    ensures match Unpack(p, sig)
            case None => error == 1
            case Some(parts) => error == 0 && parts == Parts(c[..], low[..], high[..], h[..])
  {
    UnpackChallenge(c, sig);
    var ptr := N / 8 + N * p.l;
    UnpackLowBits(low, sig[N / 8..ptr], p.l);
    var sizeHigh := sig[ptr] + p.baseHighBits;
    var sizeHint := sig[ptr + 1] + p.baseHint;
    assert sizeHigh <= 0xFFFF && sizeHint <= 0xFFFF;
    ptr := ptr + 2;
    if p.signatureBytes < 2 + N * p.l + 32 + sizeHint + sizeHigh {
      return 1;
    }
    error := DecodeVector(high, sig[ptr..ptr + sizeHigh], p.highBits);
    if error != 0 {
      return 1;
    }
    error := DecodeVector(h, sig[ptr + sizeHigh..ptr + sizeHigh + sizeHint], p.hint);
    if error != 0 {
      return 1;
    }
    var ok := CheckPadding(sig[ptr + sizeHigh + sizeHint..]);
    return if ok then 0 else 1;
  }
}
