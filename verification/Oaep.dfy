/** OAEP encoding and decoding (sections 7.1.1 and 7.1.2 of RFC 8017) over any hash function. */
module Oaep {
  import opened Arith

  type octet = bv8

  datatype Result<T> = Success(value: T) | InvalidKey | MessageTooLarge | AuthenticationFailed | InvalidArgument

  datatype Option<T> = None | Some(value: T)

  const MAX_BLOCKS := 0x1_0000_0000

  // ---------- masks ----------

  function Xor(a: seq<octet>, b: seq<octet>): (c: seq<octet>)
    requires |a| == |b|
    ensures |c| == |a|
  {
    seq(|a|, i requires 0 <= i < |a| => a[i] ^ b[i])
  }

  lemma XorByte(x: octet, y: octet)
    ensures (x ^ y) ^ y == x
  {
  }

  /** A mask applied twice cancels. */
  lemma XorTwice(a: seq<octet>, b: seq<octet>)
    requires |a| == |b|
    ensures Xor(Xor(a, b), b) == a
  {
    forall i | 0 <= i < |a|
      ensures Xor(Xor(a, b), b)[i] == a[i]
    {
      XorByte(a[i], b[i]);
    }
  }

  /** The block counter, most significant byte first. */
  function CounterBytes(counter: bv32): (c: seq<octet>)
    ensures |c| == 4
    ensures ((c[0] as bv32) << 24) | ((c[1] as bv32) << 16) | ((c[2] as bv32) << 8) | (c[3] as bv32) == counter
  {
    [(counter >> 24) as octet, ((counter >> 16) & 0xff) as octet, ((counter >> 8) & 0xff) as octet, (counter & 0xff) as octet]
  }

  /** A hash function with its digest length. */
  datatype Hash = Hash(digest: seq<octet> -> seq<octet>, length: nat)
  {
    ghost predicate Valid() {
      0 < length && forall s :: |digest(s)| == length
    }

    /** Byte i of the mask: byte i % length of the digest of the seed and counter i / length. */
    ghost function MaskByte(seed: seq<octet>, i: nat): octet
      requires Valid()
    {
      digest(seed + CounterBytes((i / length % MAX_BLOCKS) as bv32))[i % length]
    }

    /** MGF1. */
    ghost function Mask(seed: seq<octet>, size: nat): (m: seq<octet>)
      requires Valid()
      ensures |m| == size
    {
      seq(size, i requires 0 <= i < size => MaskByte(seed, i))
    }

    /** Digests needed for a mask. */
    function Blocks(size: nat): nat
      requires 0 < length
    {
      size / length + (if size % length != 0 then 1 else 0)
    }
  }

  /** The number of digests is the least that covers the mask. */
  lemma LeastBlocks(hash: Hash, size: nat)
    requires 0 < hash.length
    ensures size <= hash.Blocks(size) * hash.length && (hash.Blocks(size) - 1) * hash.length < size + (if size == 0 then 1 else 0)
  {
    var q := size / hash.length;
    DivMod(size, hash.length);
    assert (q + 1) * hash.length == q * hash.length + hash.length;
    assert (q - 1) * hash.length == q * hash.length - hash.length;
  }

  ghost predicate SameOutside(s: seq<octet>, s': seq<octet>, lo: int, hi: int) {
    |s| == |s'| && forall i | 0 <= i < |s| && !(lo <= i < hi) :: s'[i] == s[i]
  }

  lemma MaskIndex(block: nat, i: nat, length: nat)
    requires i < length
    ensures (block * length + i) / length == block && (block * length + i) % length == i
  {
    DivModUnique(block * length + i, length, block, i);
  }

  lemma MaskAt(hash: Hash, seed: seq<octet>, block: nat, i: nat)
    requires hash.Valid() && i < hash.length
    ensures 0 <= block * hash.length
    ensures hash.MaskByte(seed, block * hash.length + i) == hash.digest(seed + CounterBytes((block % MAX_BLOCKS) as bv32))[i]
  {
    MulMono(0, block, hash.length);
    MaskIndex(block, i, hash.length);
  }

  // One digest of the mask, of which take bytes are used.
  method XorDigest(output: array<octet>, off: nat, size: nat, hash: Hash, seed: seq<octet>, block: nat, offset: nat, take: nat,
                   ghost start: seq<octet>)
    requires hash.Valid() && off + size <= output.Length && offset == block * hash.length && offset + take <= size
    requires take <= hash.length && |start| == output.Length
    requires forall i | 0 <= i < offset :: output[off + i] == start[off + i] ^ hash.MaskByte(seed, i)
    requires SameOutside(start, output[..], off, off + offset)
    modifies output
    ensures forall i | 0 <= i < offset + take :: output[off + i] == start[off + i] ^ hash.MaskByte(seed, i)
    ensures SameOutside(start, output[..], off, off + offset + take)
  {
    hide Hash.MaskByte, CounterBytes;
    var counter := (block % MAX_BLOCKS) as bv32;
    var digest := hash.digest(seed + CounterBytes(counter));
    for i := 0 to take
      invariant forall k | 0 <= k < offset + i :: output[off + k] == start[off + k] ^ hash.MaskByte(seed, k)
      invariant SameOutside(start, output[..], off, off + offset + i)
    {
      MaskAt(hash, seed, block, i);
      output[off + offset + i] := output[off + offset + i] ^ digest[i];
    }
  }

  // rsa_mgf1_xor.
  method Mgf1Xor(output: array<octet>, off: nat, size: nat, seed: seq<octet>, hash: Hash) returns (ok: bool)
    requires hash.Valid() && off + size <= output.Length
    modifies output
    ensures ok <==> hash.Blocks(size) <= MAX_BLOCKS
    ensures ok ==> output[off..off + size] == Xor(old(output[off..off + size]), hash.Mask(seed, size))
    ensures SameOutside(old(output[..]), output[..], off, off + size)
  {
    var blockCount := hash.Blocks(size);
    if blockCount > MAX_BLOCKS {
      return false;
    }
    ghost var start := output[..];
    var offset: nat := 0;
    for block := 0 to blockCount
      invariant offset == Least(block * hash.length, size)
      invariant forall i | 0 <= i < offset :: output[off + i] == start[off + i] ^ hash.MaskByte(seed, i)
      invariant SameOutside(start, output[..], off, off + offset)
    {
      var take := size - offset;
      if take > hash.length {
        take := hash.length;
      }
      BlockStart(block, blockCount, hash.length, size);
      XorDigest(output, off, size, hash, seed, block, offset, take, start);
      offset := offset + take;
    }
    BlocksCover(size, hash.length);
    assert output[off..off + size] == Xor(start[off..off + size], hash.Mask(seed, size));
    return true;
  }

  function Least(x: nat, y: nat): nat {
    if x < y then x else y
  }

  /** Every block but the last is whole. */
  lemma BlockStart(block: nat, blocks: nat, length: nat, size: nat)
    requires 0 < length && block < blocks && blocks == size / length + (if size % length != 0 then 1 else 0)
    ensures 0 <= block * length < size
    ensures (block + 1) * length == block * length + length
  {
    var q := size / length;
    DivMod(size, length);
    if block < q {
      MulMono(block + 1, q, length);
    }
    assert (block + 1) * length == block * length + length;
    MulMono(0, block, length);
  }

  lemma BlocksCover(size: nat, length: nat)
    requires 0 < length
    ensures size <= (size / length + (if size % length != 0 then 1 else 0)) * length
  {
    var q := size / length;
    DivMod(size, length);
    assert (q + 1) * length == q * length + length;
  }

  // ---------- the data block ----------

  function Zeros(n: nat): (z: seq<octet>)
    ensures |z| == n
  {
    seq(n, i => 0)
  }

  /** lHash, zero padding, the byte 1, the message. */
  function DataBlock(labelHash: seq<octet>, message: seq<octet>, size: nat): (db: seq<octet>)
    requires |labelHash| + 1 + |message| <= size
    ensures |db| == size
  {
    labelHash + Zeros(size - |labelHash| - 1 - |message|) + [1] + message
  }

  function FirstNonzero(s: seq<octet>): (n: nat)
    ensures n <= |s|
  {
    if s == [] || s[0] != 0 then 0 else 1 + FirstNonzero(s[1..])
  }

  lemma {:induction false} FirstNonzeroIs(s: seq<octet>)
    ensures forall i | 0 <= i < FirstNonzero(s) :: s[i] == 0
    ensures FirstNonzero(s) < |s| ==> s[FirstNonzero(s)] != 0
  {
    if s != [] && s[0] == 0 {
      FirstNonzeroIs(s[1..]);
      forall i | 0 <= i < FirstNonzero(s)
        ensures s[i] == 0
      {
        if i > 0 {
          assert s[i] == s[1..][i - 1];
        }
      }
    }
  }

  /** The message in a data block, if the block is well formed. */
  function Parsed(db: seq<octet>, labelHash: seq<octet>): Option<seq<octet>>
    requires |labelHash| <= |db|
  {
    var tail := db[|labelHash|..];
    var f := FirstNonzero(tail);
    if db[..|labelHash|] == labelHash && f < |tail| && tail[f] == 1 then Some(tail[f + 1..]) else None
  }

  /** A data block parses to m exactly when it is the data block of m. */
  lemma ParsedIff(db: seq<octet>, labelHash: seq<octet>, message: seq<octet>)
    requires |labelHash| <= |db|
    ensures Parsed(db, labelHash) == Some(message)
       <==> |labelHash| + 1 + |message| <= |db| && db == DataBlock(labelHash, message, |db|)
  {
    hide FirstNonzero;
    var tail := db[|labelHash|..];
    var f := FirstNonzero(tail);
    FirstNonzeroIs(tail);
    if Parsed(db, labelHash) == Some(message) {
      assert tail == tail[..f] + [1] + message;
      assert tail[..f] == Zeros(f);
      assert db == labelHash + tail;
      assert db == DataBlock(labelHash, message, |db|);
    }
    if |labelHash| + 1 + |message| <= |db| && db == DataBlock(labelHash, message, |db|) {
      var n := |db| - |labelHash| - 1 - |message|;
      assert tail == Zeros(n) + [1] + message;
      ZerosThenOne(n, message);
      assert db[..|labelHash|] == labelHash;
      assert tail[n + 1..] == message;
    }
  }

  lemma ZerosThenOne(n: nat, message: seq<octet>)
    ensures FirstNonzero(Zeros(n) + [1] + message) == n
  {
    hide FirstNonzero;
    var s := Zeros(n) + [1] + message;
    FirstNonzeroIs(s);
    assert s[n] == 1 && forall i | 0 <= i < n :: s[i] == 0;
  }

  // ---------- blocks ----------

  /** The encoded block of a message under a seed. */
  ghost function Encoded(hash: Hash, modulusBytes: nat, seed: seq<octet>, tag: seq<octet>, message: seq<octet>): (e: seq<octet>)
    requires hash.Valid() && |seed| == hash.length && |message| + 2 * hash.length + 2 <= modulusBytes
    ensures |e| == modulusBytes
  {
    var size := modulusBytes - hash.length - 1;
    var masked := Xor(DataBlock(hash.digest(tag), message, size), hash.Mask(seed, size));
    [0] + Xor(seed, hash.Mask(masked, hash.length)) + masked
  }

  /** The message a block carries, if the decoder accepts it. */
  ghost function Recovered(hash: Hash, block: seq<octet>, tag: seq<octet>): Option<seq<octet>>
    requires hash.Valid() && 2 * hash.length + 2 <= |block|
  {
    var h := hash.length;
    var seed := Xor(block[1..1 + h], hash.Mask(block[1 + h..], h));
    var db := Xor(block[1 + h..], hash.Mask(seed, |block| - h - 1));
    if block[0] == 0 then Parsed(db, hash.digest(tag)) else None
  }

  /** Decoding an encoding gives the message and its length back. */
  lemma RoundTrip(hash: Hash, modulusBytes: nat, seed: seq<octet>, tag: seq<octet>, message: seq<octet>)
    requires hash.Valid() && |seed| == hash.length && |message| + 2 * hash.length + 2 <= modulusBytes
    ensures Recovered(hash, Encoded(hash, modulusBytes, seed, tag, message), tag) == Some(message)
  {
    hide Xor, Parsed, DataBlock, Hash.Mask, Hash.MaskByte;
    var h, size := hash.length, modulusBytes - hash.length - 1;
    var e := Encoded(hash, modulusBytes, seed, tag, message);
    var db := DataBlock(hash.digest(tag), message, size);
    var masked := Xor(db, hash.Mask(seed, size));
    var maskedSeed := Xor(seed, hash.Mask(masked, h));
    assert e[1..1 + h] == maskedSeed && e[1 + h..] == masked;
    XorTwice(seed, hash.Mask(masked, h));
    XorTwice(db, hash.Mask(seed, size));
    ParsedIff(db, hash.digest(tag), message);
  }

  /** What the decoder accepts is the encoding of what it returns, under the seed it unmasked. */
  lemma AcceptedIsEncoding(hash: Hash, block: seq<octet>, tag: seq<octet>, message: seq<octet>) returns (seed: seq<octet>)
    requires hash.Valid() && 2 * hash.length + 2 <= |block| && Recovered(hash, block, tag) == Some(message)
    ensures |seed| == hash.length && |message| + 2 * hash.length + 2 <= |block|
    ensures block == Encoded(hash, |block|, seed, tag, message)
  {
    hide Xor, Parsed, DataBlock, Hash.Mask, Hash.MaskByte;
    var h := hash.length;
    var masked, size := block[1 + h..], |block| - h - 1;
    seed := Xor(block[1..1 + h], hash.Mask(masked, h));
    var db := Xor(masked, hash.Mask(seed, size));
    ParsedIff(db, hash.digest(tag), message);
    XorTwice(block[1..1 + h], hash.Mask(masked, h));
    XorTwice(masked, hash.Mask(seed, size));
    assert block == [block[0]] + block[1..1 + h] + masked;
  }

  /** The accepted blocks are exactly the encodings. */
  lemma AcceptedIff(hash: Hash, block: seq<octet>, tag: seq<octet>, message: seq<octet>)
    requires hash.Valid() && 2 * hash.length + 2 <= |block|
    ensures Recovered(hash, block, tag) == Some(message)
       <==> |message| + 2 * hash.length + 2 <= |block|
            && exists seed | |seed| == hash.length :: block == Encoded(hash, |block|, seed, tag, message)
  {
    hide Recovered, Encoded;
    if Recovered(hash, block, tag) == Some(message) {
      var seed := AcceptedIsEncoding(hash, block, tag, message);
    }
    if |message| + 2 * hash.length + 2 <= |block| {
      forall seed | |seed| == hash.length && block == Encoded(hash, |block|, seed, tag, message)
        ensures Recovered(hash, block, tag) == Some(message)
      {
        RoundTrip(hash, |block|, seed, tag, message);
      }
    }
  }

  // ---------- the code ----------

  method CopyInto(output: array<octet>, off: nat, s: seq<octet>)
    requires off + |s| <= output.Length
    modifies output
    ensures output[off..off + |s|] == s
    ensures SameOutside(old(output[..]), output[..], off, off + |s|)
  {
    for i := 0 to |s|
      invariant forall k | 0 <= k < i :: output[off + k] == s[k]
      invariant SameOutside(old(output[..]), output[..], off, off + i)
    {
      output[off + i] := s[i];
    }
  }

  // The data block in its place in the zeroed buffer.
  method WriteDataBlock(encoded: array<octet>, off: nat, tagHash: seq<octet>, message: seq<octet>)
    requires off <= encoded.Length && |tagHash| + 1 + |message| <= encoded.Length - off
    requires forall i | 0 <= i < encoded.Length :: encoded[i] == 0
    modifies encoded
    ensures encoded[off..] == DataBlock(tagHash, message, encoded.Length - off)
    ensures forall i | 0 <= i < off :: encoded[i] == 0
  {
    CopyInto(encoded, off, tagHash);
    var delimiter := encoded.Length - off - |message| - 1;
    ghost var s1 := encoded[..];
    encoded[off + delimiter] := 1;
    ghost var s2 := encoded[..];
    CopyInto(encoded, off + delimiter + 1, message);
    DataBlockWritten(s1, s2, encoded[..], off, tagHash, message, delimiter);
  }

  lemma DataBlockWritten(s1: seq<octet>, s2: seq<octet>, s3: seq<octet>, off: nat, tagHash: seq<octet>, message: seq<octet>,
                         delimiter: nat)
    requires off <= |s1| && |tagHash| + 1 + |message| <= |s1| - off && delimiter == |s1| - off - |message| - 1
    requires s1[off..off + |tagHash|] == tagHash
    requires forall i | 0 <= i < |s1| && !(off <= i < off + |tagHash|) :: s1[i] == 0
    requires s2 == s1[off + delimiter := 1] && SameOutside(s2, s3, off + delimiter + 1, off + delimiter + 1 + |message|)
    requires s3[off + delimiter + 1..off + delimiter + 1 + |message|] == message
    ensures s3[off..] == DataBlock(tagHash, message, |s1| - off)
  {
    var db, h := DataBlock(tagHash, message, |s1| - off), |tagHash|;
    forall i | 0 <= i < |db|
      ensures s3[off + i] == db[i]
    {
      if i < h {
        assert s1[off..off + h][i] == tagHash[i];
      } else if i > delimiter {
        assert s3[off + delimiter + 1..off + delimiter + 1 + |message|][i - delimiter - 1] == message[i - delimiter - 1];
      }
    }
  }

  // crypto_rsa_oaep_encrypt_internal up to the modular exponentiation, for the random seed.
  method Encode(hash: Hash, modulusBytes: nat, seed: seq<octet>, tag: seq<octet>, message: seq<octet>)
    returns (result: Result<seq<octet>>)
    requires hash.Valid() && |seed| == hash.length
    ensures result.InvalidKey? <==> modulusBytes < 2 * hash.length + 2
    ensures 2 * hash.length + 2 <= modulusBytes < |message| + 2 * hash.length + 2 ==> result == MessageTooLarge
    ensures |message| + 2 * hash.length + 2 <= modulusBytes && hash.Blocks(modulusBytes - hash.length - 1) <= MAX_BLOCKS
        ==> result == Success(Encoded(hash, modulusBytes, seed, tag, message))
    ensures 2 * hash.length + 2 <= modulusBytes && hash.Blocks(modulusBytes - hash.length - 1) > MAX_BLOCKS
        ==> result == MessageTooLarge
  {
    hide Xor, DataBlock, Hash.Mask, Hash.MaskByte, Hash.Valid, Hash.Blocks, Encoded, SameOutside;
    var h := hash.length;
    if modulusBytes < 2 * h + 2 {
      return InvalidKey;
    }
    if |message| > modulusBytes - 2 * h - 2 {
      return MessageTooLarge;
    }
    DigestLength(hash, tag);
    OneBlock(hash);
    var encoded := new octet[modulusBytes](i => 0);
    var size := modulusBytes - h - 1;
    WriteDataBlock(encoded, 1 + h, hash.digest(tag), message);
    ghost var e0 := encoded[..];
    CopyInto(encoded, 1, seed);
    ghost var e1 := encoded[..];
    var ok := Mgf1Xor(encoded, 1 + h, size, encoded[1..1 + h], hash);
    if !ok {
      return MessageTooLarge;
    }
    ghost var e2 := encoded[..];
    ok := Mgf1Xor(encoded, 1, h, encoded[1 + h..], hash);
    assert ok;
    EncodedSteps(hash, seed, tag, message, e0, e1, e2, encoded[..]);
    return Success(encoded[..]);
  }

  lemma DigestLength(hash: Hash, s: seq<octet>)
    requires hash.Valid()
    ensures |hash.digest(s)| == hash.length && 0 < hash.length
  {
  }

  /** The data block, the seed and the two masks, one after the other, make the encoded block. */
  lemma EncodedSteps(hash: Hash, seed: seq<octet>, tag: seq<octet>, message: seq<octet>, e0: seq<octet>, e1: seq<octet>,
                     e2: seq<octet>, e3: seq<octet>)
    requires hash.Valid() && |seed| == hash.length && |message| + 2 * hash.length + 2 <= |e0|
    requires var h, size := hash.length, |e0| - hash.length - 1;
      && e0[1 + h..] == DataBlock(hash.digest(tag), message, size) && e0[0] == 0
      && SameOutside(e0, e1, 1, 1 + |seed|) && e1[1..1 + |seed|] == seed
      && SameOutside(e1, e2, 1 + h, 1 + h + size)
      && e2[1 + h..1 + h + size] == Xor(e1[1 + h..1 + h + size], hash.Mask(e1[1..1 + h], size))
      && SameOutside(e2, e3, 1, 1 + h) && e3[1..1 + h] == Xor(e2[1..1 + h], hash.Mask(e2[1 + h..], h))
    ensures e3 == Encoded(hash, |e0|, seed, tag, message)
  {
    hide Xor, DataBlock, Hash.Mask, Hash.MaskByte;
    var h, size := hash.length, |e0| - hash.length - 1;
    assert e1[1 + h..1 + h + size] == e0[1 + h..];
    assert e2[1..1 + h] == seed;
    assert e2[1 + h..] == e2[1 + h..1 + h + size] == e3[1 + h..];
    assert e3 == [e3[0]] + e3[1..1 + h] + e3[1 + h..];
  }

  lemma OneBlock(hash: Hash)
    requires hash.Valid()
    ensures hash.Blocks(hash.length) == 1 <= MAX_BLOCKS
  {
    DivModUnique(hash.length, hash.length, 1, 0);
  }

  /** Where the scan stands after the bytes before i. */
  ghost predicate Scanned(db: seq<octet>, h: nat, i: nat, bad: bool, seeking: bool, messageIndex: nat)
    requires h <= i <= |db|
  {
    var f := FirstNonzero(db[h..]);
    && (h + f >= i ==> !bad && seeking)
    && (h + f < i && db[h + f] == 1 ==> !bad && !seeking && messageIndex == h + f + 1)
    && (h + f < i && db[h + f] != 1 ==> bad)
  }

  // The delimiter scan: it touches every byte, and stops caring after the delimiter.
  method ScanDelimiter(db: seq<octet>, h: nat) returns (bad: bool, messageIndex: nat)
    requires h <= |db|
    ensures var f := FirstNonzero(db[h..]);
      && (!bad <==> h + f < |db| && db[h + f] == 1)
      && (!bad ==> messageIndex == h + f + 1)
  {
    hide FirstNonzero;
    bad := false;
    var seeking := true;
    messageIndex := |db|;
    FirstNonzeroIs(db[h..]);
    for i := h to |db|
      invariant Scanned(db, h, i, bad, seeking, messageIndex)
    {
      assert db[h..][i - h] == db[i];
      var isZero := db[i] == 0;
      var isOne := db[i] ^ 1 == 0;
      OnlyOne(db[i]);
      var take := seeking && isOne;
      var acceptable := isZero || isOne;
      messageIndex := if take then i + 1 else messageIndex;
      bad := bad || (seeking && !acceptable);
      seeking := seeking && !isOne;
      ScanStep(db, h, i);
    }
    bad := bad || seeking;
  }

  lemma OnlyOne(x: octet)
    ensures x ^ 1 == 0 <==> x == 1
  {
  }

  lemma ScanStep(db: seq<octet>, h: nat, i: nat)
    requires h <= i < |db|
    ensures var f := FirstNonzero(db[h..]);
      && (i < h + f ==> db[i] == 0) && (i == h + f ==> db[i] != 0) && (h + f < |db| ==> db[h..][f] == db[h + f])
  {
    hide FirstNonzero;
    FirstNonzeroIs(db[h..]);
    assert db[h..][i - h] == db[i];
  }

  // The two mask removals of the decryption.
  method Unmask(hash: Hash, block: seq<octet>, ghost tag: seq<octet>) returns (ok: bool, db: seq<octet>)
    requires hash.Valid() && 2 * hash.length + 2 <= |block|
    ensures ok <==> hash.Blocks(|block| - hash.length - 1) <= MAX_BLOCKS
    ensures ok ==> |hash.digest(tag)| == hash.length <= |db|
    ensures ok ==> Recovered(hash, block, tag) == if block[0] == 0 then Parsed(db, hash.digest(tag)) else None
  {
    hide *;
    var h := hash.length;
    var size := |block| - h - 1;
    DigestLength(hash, tag);
    OneBlock(hash);
    var encoded := new octet[|block|](i requires 0 <= i < |block| reads {} => block[i]);
    assert encoded[..] == block;
    ok := Mgf1Xor(encoded, 1, h, encoded[1 + h..], hash);
    assert ok;
    ghost var e1 := encoded[..];
    ok := Mgf1Xor(encoded, 1 + h, size, encoded[1..1 + h], hash);
    db := encoded[1 + h..1 + h + size];
    if ok {
      UnmaskSteps(hash, tag, block, e1, encoded[..]);
    }
  }

  // crypto_rsa_oaep_decrypt_internal after the modular exponentiation.
  method Decode(hash: Hash, block: seq<octet>, tag: seq<octet>) returns (result: Result<seq<octet>>)
    requires hash.Valid()
    ensures result.InvalidKey? <==> |block| < 2 * hash.length + 2
    ensures 2 * hash.length + 2 <= |block| && hash.Blocks(|block| - hash.length - 1) <= MAX_BLOCKS ==>
      result == match Recovered(hash, block, tag) case Some(message) => Success(message) case None => AuthenticationFailed
    ensures 2 * hash.length + 2 <= |block| && hash.Blocks(|block| - hash.length - 1) > MAX_BLOCKS ==> result == MessageTooLarge
  {
    hide *;
    var h := hash.length;
    if |block| < 2 * h + 2 {
      return InvalidKey;
    }
    DigestLength(hash, tag);
    var bad := block[0] != 0;
    var ok, db := Unmask(hash, block, tag);
    if !ok {
      return MessageTooLarge;
    }
    if db[..h] != hash.digest(tag) {
      bad := true;
    }
    var missing, messageIndex := ScanDelimiter(db, h);
    bad := bad || missing;
    ParsedMeans(db, hash.digest(tag), missing, messageIndex);
    if bad {
      return AuthenticationFailed;
    }
    return Success(db[messageIndex..]);
  }

  /** The two masks, taken off one after the other, leave the data block. */
  lemma UnmaskSteps(hash: Hash, tag: seq<octet>, e0: seq<octet>, e1: seq<octet>, e2: seq<octet>)
    requires hash.Valid() && 2 * hash.length + 2 <= |e0|
    requires var h, size := hash.length, |e0| - hash.length - 1;
      && SameOutside(e0, e1, 1, 1 + h) && e1[1..1 + h] == Xor(e0[1..1 + h], hash.Mask(e0[1 + h..], h))
      && SameOutside(e1, e2, 1 + h, 1 + h + size)
      && e2[1 + h..1 + h + size] == Xor(e1[1 + h..1 + h + size], hash.Mask(e1[1..1 + h], size))
    ensures Recovered(hash, e0, tag)
         == if e0[0] == 0 then Parsed(e2[1 + hash.length..|e0|], hash.digest(tag)) else None
  {
    hide Xor, Parsed, Hash.Mask, Hash.MaskByte;
    var h, size := hash.length, |e0| - hash.length - 1;
    assert e1[1 + h..1 + h + size] == e0[1 + h..];
  }

  lemma ParsedMeans(db: seq<octet>, tagHash: seq<octet>, missing: bool, messageIndex: nat)
    requires |tagHash| <= |db|
    requires var h := |tagHash|; var f := FirstNonzero(db[h..]);
      && (!missing <==> h + f < |db| && db[h + f] == 1)
      && (!missing ==> messageIndex == h + f + 1)
    ensures !missing ==> messageIndex <= |db|
    ensures Parsed(db, tagHash) == if db[..|tagHash|] == tagHash && !missing then Some(db[messageIndex..]) else None
  {
    hide FirstNonzero;
    var h := |tagHash|;
    var f := FirstNonzero(db[h..]);
    if h + f < |db| {
      assert db[h..][f] == db[h + f] && db[h..][f + 1..] == db[h + f + 1..];
    }
  }
}
