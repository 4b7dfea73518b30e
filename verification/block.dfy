/**
 * The proof-of-work block of `src/block.rs`: its constructors, the hash
 * string and digest, the difficulty check and the serial miner.
 *
 * SHA-256 (applied to the UTF-8 bytes of the hash string) is not modelled:
 * every operation that hashes takes the digest function `h` as a parameter,
 * and nothing here depends on which function it is.
 */
module Blocks {
  import opened Ints
  import opened Optional
  import opened Digests
  import opened Encoding

  /** One link of the chain; `proof` is `None` until the block is mined. */
  datatype Block = Block(
    prevHash: Digest,
    generation: u64,
    difficulty: u8,
    data: string,
    proof: Option<u64>)

  /** Everything the hash string is built from: a block's fields with a candidate proof. */
  datatype Preimage = Preimage(
    prevHash: Digest,
    generation: u64,
    difficulty: u8,
    data: string,
    proof: u64)

  /** The digest function: SHA-256 of the string's UTF-8 bytes. */
  type Hasher = string -> Digest

  function PreimageFor(b: Block, proof: u64): Preimage
  {
    Preimage(b.prevHash, b.generation, b.difficulty, b.data, proof)
  }

  // ---------------------------------------------------------------------------
  // Constructors and the chain they build

  predicate IsGenesis(b: Block)
  {
    b.generation == 0 && b.prevHash == ZeroDigest() && b.data == ""
  }

  /** A `next` block that may follow the mined block `prev`. */
  predicate LinksTo(h: Hasher, prev: Block, next: Block)
  {
    && prev.proof.Some?
    && next.prevHash == Hash(h, prev)
    && next.generation == prev.generation + 1
    && next.difficulty == prev.difficulty
  }

  /** The first block of a chain: zero predecessor hash, generation 0, no data, unmined. */
  function Initial(difficulty: u8): (b: Block)
    ensures IsGenesis(b) && b.difficulty == difficulty && b.proof.None?
  {
    Block(ZeroDigest(), 0, difficulty, "", None)
  }

  /**
   * A block that can follow `previous`. `Block::next` unwraps `previous.proof`
   * and adds one to a `u64` generation, so `previous` must be mined and its
   * generation below the `u64` maximum.
   */
  function Next(h: Hasher, previous: Block, data: string): (b: Block)
    requires previous.proof.Some?
    requires previous.generation < U64_MAX
    ensures LinksTo(h, previous, b)
    ensures b.data == data && b.proof.None?
  {
    Block(Hash(h, previous), previous.generation + 1, previous.difficulty, data, None)
  }

  /** A chain: a genesis-shaped first block, then each block linked to the one before. */
  ghost predicate IsChain(h: Hasher, blocks: seq<Block>)
  {
    && |blocks| > 0
    && IsGenesis(blocks[0])
    && forall i | 0 < i < |blocks| :: LinksTo(h, blocks[i - 1], blocks[i])
  }

  /** In a chain the generation of a block is its position, and the difficulty never changes. */
  lemma {:induction false} ChainShape(h: Hasher, blocks: seq<Block>)
    requires IsChain(h, blocks)
    ensures forall i | 0 <= i < |blocks| :: blocks[i].generation == i
    ensures forall i | 0 <= i < |blocks| :: blocks[i].difficulty == blocks[0].difficulty
  {
    if |blocks| > 1 {
      var init := blocks[..|blocks| - 1];
      assert IsChain(h, init) by {
        forall i | 0 < i < |init|
          ensures LinksTo(h, init[i - 1], init[i])
        {
          assert init[i - 1] == blocks[i - 1] && init[i] == blocks[i];
        }
      }
      ChainShape(h, init);
      assert LinksTo(h, blocks[|blocks| - 2], blocks[|blocks| - 1]);
    }
  }

  /** Mining the last block of a chain and appending its successor gives a chain again. */
  lemma ChainExtends(h: Hasher, blocks: seq<Block>, proof: u64, data: string)
    requires IsChain(h, blocks)
    requires blocks[|blocks| - 1].generation < U64_MAX
    ensures var mined := SetProof(blocks[|blocks| - 1], proof);
            var longer := blocks[..|blocks| - 1] + [mined, Next(h, mined, data)];
            IsChain(h, longer) && |longer| == |blocks| + 1
  {
    var last := blocks[|blocks| - 1];
    var mined := SetProof(last, proof);
    var longer := blocks[..|blocks| - 1] + [mined, Next(h, mined, data)];
    forall i | 0 < i < |longer|
      ensures LinksTo(h, longer[i - 1], longer[i])
    {
      if i < |blocks| - 1 {
        assert longer[i - 1] == blocks[i - 1] && longer[i] == blocks[i];
      } else if i == |blocks| - 1 {
        assert longer[i - 1] == blocks[i - 1] && longer[i] == mined;
        assert LinksTo(h, blocks[i - 1], last);
      }
    }
  }

  // ---------------------------------------------------------------------------
  // Hash string and digest

  /**
   * The hash string: 64 lowercase hex digits of the predecessor hash, then
   * the generation, the difficulty, the data and the proof, separated by ':'.
   */
  function Encode(pre: Preimage): string
  {
    Joined(Hex(pre.prevHash), EncodeCounters(pre))
  }

  /**
   * Reads a hash string back into its fields. Only the data may contain a
   * separator: the generation and difficulty end at the first separator after
   * them, and the proof starts after the last separator of the string.
   */
  function ParseHashString(s: string): Option<Preimage>
  {
    if |s| < 65 || s[64] != SEPARATOR then None
    else
      var prevHash :- ParseHex(s[..64]);
      ParseCounters(prevHash, s[65..])
  }

  /** Reads the part of a hash string after the predecessor hash and its separator. */
  function ParseCounters(prevHash: Digest, s: string): Option<Preimage>
  {
    var generation :- SplitFirst(s);
    var g :- ParseDecimal(generation.0);
    var difficulty :- SplitFirst(generation.1);
    var d :- ParseDecimal(difficulty.0);
    var proof :- SplitLast(difficulty.1);
    var p :- ParseDecimal(proof.1);
    if g < U64_LIMIT && d < 0x100 && p < U64_LIMIT then
      Some(Preimage(prevHash, g, d, proof.0, p))
    else
      None
  }

  /** What follows the predecessor hash in `Encode(pre)`. */
  function EncodeCounters(pre: Preimage): string
  {
    Joined(Decimal(pre.generation), Joined(Decimal(pre.difficulty), Joined(pre.data, Decimal(pre.proof))))
  }

  lemma CountersRoundTrip(pre: Preimage)
    ensures ParseCounters(pre.prevHash, EncodeCounters(pre)) == Some(pre)
  {
    var tail := Joined(pre.data, Decimal(pre.proof));
    var middle := Joined(Decimal(pre.difficulty), tail);
    DecimalShape(pre.generation);
    DecimalShape(pre.difficulty);
    DecimalShape(pre.proof);
    SplitFirstJoined(Decimal(pre.generation), middle);
    DecimalRoundTrip(pre.generation);
    SplitFirstJoined(Decimal(pre.difficulty), tail);
    DecimalRoundTrip(pre.difficulty);
    SplitLastJoined(pre.data, Decimal(pre.proof));
    DecimalRoundTrip(pre.proof);
  }

  lemma EncodeRoundTrip(pre: Preimage)
    ensures ParseHashString(Encode(pre)) == Some(pre)
  {
    var s := Encode(pre);
    HexShape(pre.prevHash);
    assert s[..64] == Hex(pre.prevHash);
    assert s[64] == SEPARATOR;
    assert s[65..] == EncodeCounters(pre);
    HexRoundTrip(pre.prevHash);
    CountersRoundTrip(pre);
  }

  /** The string `hash_string_for_proof` would hash. */
  function HashStringForProof(b: Block, proof: u64): string
  {
    Encode(PreimageFor(b, proof))
  }

  /** The hash string for a candidate proof decodes to the block's four fields and that proof. */
  lemma HashStringDecodes(b: Block, proof: u64)
    ensures ParseHashString(HashStringForProof(b, proof)) == Some(PreimageFor(b, proof))
  {
    EncodeRoundTrip(PreimageFor(b, proof));
  }

  /** Two hash strings are equal only when the fields and the proofs behind them are. */
  lemma HashStringInjective(b: Block, p: u64, b': Block, p': u64)
    requires HashStringForProof(b, p) == HashStringForProof(b', p')
    ensures b.prevHash == b'.prevHash && b.generation == b'.generation
    ensures b.difficulty == b'.difficulty && b.data == b'.data && p == p'
  {
    HashStringDecodes(b, p);
    HashStringDecodes(b', p');
  }

  /** The hash string of a mined block: the string for its own proof. */
  function HashString(b: Block): string
    requires b.proof.Some?
  {
    HashStringForProof(b, b.proof.value)
  }

  /** A mined block's hash string decodes to its four fields and its stored proof. */
  lemma MinedHashStringDecodes(b: Block)
    requires b.proof.Some?
    ensures ParseHashString(HashString(b)) == Some(PreimageFor(b, b.proof.value))
  {
    HashStringDecodes(b, b.proof.value);
  }

  function HashForProof(h: Hasher, b: Block, proof: u64): Digest
  {
    h(HashStringForProof(b, proof))
  }

  /** The digest of a mined block: the digest for its own proof, which is the digest of its hash string. */
  function Hash(h: Hasher, b: Block): (d: Digest)
    requires b.proof.Some?
    ensures d == h(HashString(b))
  {
    HashForProof(h, b, b.proof.value)
  }

  /** The digest for a candidate proof depends on the block's four fields, not on its stored proof. */
  lemma HashIgnoresStoredProof(h: Hasher, b: Block, stored: Option<u64>, proof: u64)
    ensures HashForProof(h, b.(proof := stored), proof) == HashForProof(h, b, proof)
  {
  }

  /** Records a proof: the block now hashes exactly as it would with that candidate, and nothing else changes. */
  function SetProof(b: Block, proof: u64): (r: Block)
    ensures r.proof == Some(proof)
    ensures HashString(r) == HashStringForProof(b, proof)
    ensures r.(proof := b.proof) == b
  {
    b.(proof := Some(proof))
  }

  // ---------------------------------------------------------------------------
  // Difficulty check

  /**
   * `is_valid_for_proof`'s byte check: the last `difficulty / 8` digest bytes are zero
   * and, when `difficulty % 8` is not zero, the byte just before them is a
   * multiple of `2^(difficulty % 8)`. Every index is within the digest for
   * every `u8` difficulty (at most 31 whole bytes).
   */
  predicate DigestMeetsDifficulty(digest: Digest, difficulty: u8)
  {
    var nBytes := difficulty / 8;
    var nBits := difficulty % 8;
    && ZeroFrom(digest, DIGEST_LEN - nBytes)
    && (nBits != 0 ==> digest[DIGEST_LEN - nBytes - 1] % Pow2(nBits) == 0)
  }

  /** The byte check is exactly "the digest, as a big-endian number, has `difficulty` trailing zero bits". */
  lemma MeetsDifficultyIffDivisible(digest: Digest, difficulty: u8)
    ensures DigestMeetsDifficulty(digest, difficulty) <==> BigEndian(digest) % Pow2(difficulty) == 0
  {
    var nBytes, nBits := difficulty / 8, difficulty % 8;
    var n := DIGEST_LEN - nBytes;
    TrailingBitsSplit(digest, nBytes, nBits);
    TrailingBytesZero(digest, n);
    ZeroFromIff(digest, n);
    LowBitsOfLastByte(digest[..n], nBits);
  }

  /** Difficulty 0 accepts every digest. */
  lemma ZeroDifficultyAcceptsAll(digest: Digest)
    ensures DigestMeetsDifficulty(digest, 0)
  {
  }

  /** A digest good enough for some difficulty is good enough for every smaller one. */
  lemma LowerDifficultyStillMet(digest: Digest, difficulty: u8, lower: u8)
    requires lower <= difficulty
    requires DigestMeetsDifficulty(digest, difficulty)
    ensures DigestMeetsDifficulty(digest, lower)
  {
    MeetsDifficultyIffDivisible(digest, difficulty);
    MeetsDifficultyIffDivisible(digest, lower);
    Pow2Add(lower, difficulty - lower);
    ModOfMultiple(BigEndian(digest), Pow2(lower), Pow2(difficulty - lower));
  }

  /** Would the block be valid with this proof? */
  predicate IsValidForProof(h: Hasher, b: Block, proof: u64)
  {
    DigestMeetsDifficulty(HashForProof(h, b, proof), b.difficulty)
  }

  /** An unmined block is never valid; a mined one is valid when its own proof is. */
  function IsValid(h: Hasher, b: Block): (valid: bool)
    ensures valid <==> b.proof.Some? && IsValidForProof(h, b, b.proof.value)
    ensures valid <==> b.proof.Some? && BigEndian(Hash(h, b)) % Pow2(b.difficulty) == 0
  {
    if b.proof.None? then false
    else
      MeetsDifficultyIffDivisible(Hash(h, b), b.difficulty);
      IsValidForProof(h, b, b.proof.value)
  }

  // ---------------------------------------------------------------------------
  // Serial mining

  /**
   * Tries proofs 0, 1, 2, ... until one is valid and records it. The loop
   * only ends when some valid `u64` proof exists; `known` is one.
   */
  method MineSerial(h: Hasher, b: Block, ghost known: u64) returns (mined: Block)
    requires IsValidForProof(h, b, known)
    ensures mined.proof.Some? && IsValidForProof(h, b, mined.proof.value)
    ensures forall q: u64 | q < mined.proof.value :: !IsValidForProof(h, b, q)
    ensures mined == SetProof(b, mined.proof.value)
    ensures IsValid(h, mined)
  {
    var p: u64 := 0;
    while !IsValidForProof(h, b, p)
      invariant p <= known
      invariant forall q: u64 | q < p :: !IsValidForProof(h, b, q)
      decreases known - p
    {
      p := p + 1;
    }
    mined := SetProof(b, p);
  }
}
