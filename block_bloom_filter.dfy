/**
  Kudu's split block Bloom filter (src/kudu/util/block_bloom_filter.cc).

  The directory is an array of buckets of eight 32-bit words. Inserting a hash
  picks one bucket from a rehash of the hash and sets one bit in each of its
  words, chosen by the top five bits of the hash multiplied by that word's salt;
  finding a hash checks those eight bits.

  The header block_bloom_filter.h is not part of this model. The bucket shape
  (8 words of 32 bits, 32 bytes a bucket) follows the comment at lines 163-166
  of the .cc file; the salts kRehash and the function Rehash32to32 defined in
  the header are parameters of the filter.
*/
module BlockBloom {
  import opened Wrappers
  import opened KuduStatus
  import opened AsciiStrings
  import opened BytesBitSet

  /** kBucketWords: the 32-bit words of one bucket. */
  const BucketWords: nat := 8
  /** kLogBucketByteSize: log2 of the bytes of one bucket. */
  const LogBucketByteSize: nat := 5

  /** uint32_t. */
  type U32 = x: int | 0 <= x < 0x1_0000_0000

  /** The eight multiplicative salts kRehash, one per word of a bucket. */
  type Salts = s: seq<U32> | |s| == 8 witness [0, 0, 0, 0, 0, 0, 0, 0]

  /**
    The position of the bit one salt selects in its word: the top
    kLogBucketWordBits = 5 bits of the 32-bit product salt * hash, which wraps
    modulo 2^32; the shift right by 32 - 5 = 27 is the division by 2^27.
  */
  function BitPos(salt: U32, hash: U32): (p: nat)
    ensures p < 32
  {
    ((salt * hash) % 0x1_0000_0000) / 0x800_0000
  }

  /** The bit positions a hash selects, one per word of a bucket. */
  function Positions(salts: Salts, hash: U32): (ps: seq<nat>)
    ensures |ps| == BucketWords
    ensures forall i :: 0 <= i < BucketWords ==> ps[i] < 32
  {
    seq(BucketWords, i requires 0 <= i < BucketWords => BitPos(salts[i], hash))
  }

  lemma {:induction false} Pow2Byte(n: nat)
    ensures Pow2(n + 8) == 256 * Pow2(n)
  {
    assert Pow2(n + 8) == 2 * Pow2(n + 7) && Pow2(n + 7) == 2 * Pow2(n + 6);
    assert Pow2(n + 6) == 2 * Pow2(n + 5) && Pow2(n + 5) == 2 * Pow2(n + 4);
    assert Pow2(n + 4) == 2 * Pow2(n + 3) && Pow2(n + 3) == 2 * Pow2(n + 2);
    assert Pow2(n + 2) == 2 * Pow2(n + 1) && Pow2(n + 1) == 2 * Pow2(n);
  }

  lemma Pow2Word()
    ensures Pow2(32) == 0x1_0000_0000
  {
    Pow2Byte(0);
    Pow2Byte(8);
    Pow2Byte(16);
    Pow2Byte(24);
  }

  /** w | (1 << p) on a 32-bit word. */
  function Or(w: U32, p: nat): (r: U32)
    requires p < 32
  {
    Pow2Word();
    SetBitBound(w, p, 32);
    SetBit(w, p)
  }

  /** The OR sets bit p and leaves every other bit as it was. */
  lemma OrBits(w: U32, p: nat, q: nat)
    requires p < 32
    ensures Bit(Or(w, p), q) == (q == p || Bit(w, q))
  {
    SetBitBits(w, p, q);
  }

  /** ORing the same bit twice is ORing it once. */
  lemma {:induction false} SetBitTwice(x: nat, k: nat)
    ensures SetBit(SetBit(x, k), k) == SetBit(x, k)
    decreases k
  {
    if k > 0 {
      SetBitTwice(x / 2, k - 1);
      assert SetBit(x, k) % 2 == x % 2 && SetBit(x, k) / 2 == SetBit(x / 2, k - 1);
    }
  }

  /** The bucket a hash goes to among n buckets: Rehash32to32(hash) & (n - 1), for n a power of two. */
  function Bucket(rehash: U32 -> U32, n: nat, hash: U32): (b: nat)
    requires n > 0
    ensures b < n
  {
    rehash(hash) % n
  }

  /** The words of bucket b lie inside the directory d. */
  predicate InBucket(d: seq<U32>, b: nat)
  {
    (b + 1) * BucketWords <= |d|
  }

  /** The bits ps of a bucket are bit positions within a word. */
  predicate IsPositions(ps: seq<nat>)
  {
    |ps| == BucketWords && forall i :: 0 <= i < BucketWords ==> ps[i] < 32
  }

  /** BucketInsert on the directory as a sequence: set bit ps[i] in word i of bucket b. */
  function Inserted(d: seq<U32>, b: nat, ps: seq<nat>): (r: seq<U32>)
    requires InBucket(d, b) && IsPositions(ps)
    ensures |r| == |d|
  {
    seq(|d|, j requires 0 <= j < |d| =>
      if b * BucketWords <= j < (b + 1) * BucketWords then Or(d[j], ps[j - b * BucketWords]) else d[j])
  }

  /** BucketFind on the directory as a sequence: word i of bucket b has bit ps[i]. */
  predicate Has(d: seq<U32>, b: nat, ps: seq<nat>)
    requires InBucket(d, b) && IsPositions(ps)
  {
    forall i :: 0 <= i < BucketWords ==> Bit(d[b * BucketWords + i], ps[i])
  }

  /** A word of bucket b after the insert: the old word with its bit set. */
  lemma InsertedWord(d: seq<U32>, b: nat, ps: seq<nat>, i: nat)
    requires InBucket(d, b) && IsPositions(ps) && i < BucketWords
    ensures Inserted(d, b, ps)[b * BucketWords + i] == Or(d[b * BucketWords + i], ps[i])
  {
  }

  /** No false negatives within a bucket: after an insert, the bucket has its bits. */
  lemma InsertedHas(d: seq<U32>, b: nat, ps: seq<nat>)
    requires InBucket(d, b) && IsPositions(ps)
    ensures Has(Inserted(d, b, ps), b, ps)
  {
    forall i | 0 <= i < BucketWords
      ensures Bit(Inserted(d, b, ps)[b * BucketWords + i], ps[i])
    {
      InsertedWord(d, b, ps, i);
      OrBits(d[b * BucketWords + i], ps[i], ps[i]);
    }
  }

  /**
    The insert changes exactly one bit per word of bucket b, the selected one,
    and nothing outside the bucket: it never clears a bit.
  */
  lemma InsertedBits(d: seq<U32>, b: nat, ps: seq<nat>, j: nat, q: nat)
    requires InBucket(d, b) && IsPositions(ps) && j < |d|
    ensures b * BucketWords <= j < (b + 1) * BucketWords ==>
              Bit(Inserted(d, b, ps)[j], q) == (q == ps[j - b * BucketWords] || Bit(d[j], q))
    ensures !(b * BucketWords <= j < (b + 1) * BucketWords) ==> Inserted(d, b, ps)[j] == d[j]
  {
    if b * BucketWords <= j < (b + 1) * BucketWords {
      OrBits(d[j], ps[j - b * BucketWords], q);
    }
  }

  /** What a bucket has before an insert, it has after it. */
  lemma InsertedKeepsHas(d: seq<U32>, b: nat, ps: seq<nat>, b2: nat, ps2: seq<nat>)
    requires InBucket(d, b) && IsPositions(ps) && InBucket(d, b2) && IsPositions(ps2)
    requires Has(d, b2, ps2)
    ensures Has(Inserted(d, b, ps), b2, ps2)
  {
    forall i | 0 <= i < BucketWords
      ensures Bit(Inserted(d, b, ps)[b2 * BucketWords + i], ps2[i])
    {
      InsertedBits(d, b, ps, b2 * BucketWords + i, ps2[i]);
    }
  }

  /** Inserting the same hash twice leaves the directory as inserting it once. */
  lemma InsertedIdempotent(d: seq<U32>, b: nat, ps: seq<nat>)
    requires InBucket(d, b) && IsPositions(ps)
    ensures Inserted(Inserted(d, b, ps), b, ps) == Inserted(d, b, ps)
  {
    var r := Inserted(d, b, ps);
    forall j | b * BucketWords <= j < (b + 1) * BucketWords
      ensures Inserted(r, b, ps)[j] == r[j]
    {
      SetBitTwice(d[j], ps[j - b * BucketWords]);
    }
  }

  /** The directory of n buckets after inserting each hash of hs in turn. */
  function InsertAll(d: seq<U32>, salts: Salts, rehash: U32 -> U32, n: nat, hs: seq<U32>): (r: seq<U32>)
    requires n > 0 && |d| == n * BucketWords
    ensures |r| == |d|
    decreases |hs|
  {
    if |hs| == 0 then d
    else InsertAll(Inserted(d, Bucket(rehash, n, hs[0]), Positions(salts, hs[0])), salts, rehash, n, hs[1..])
  }

  lemma {:induction false} InsertAllKeeps(d: seq<U32>, salts: Salts, rehash: U32 -> U32, n: nat,
                                          hs: seq<U32>, b: nat, ps: seq<nat>)
    requires n > 0 && |d| == n * BucketWords
    requires InBucket(d, b) && IsPositions(ps) && Has(d, b, ps)
    ensures Has(InsertAll(d, salts, rehash, n, hs), b, ps)
    decreases |hs|
  {
    if |hs| > 0 {
      var b0 := Bucket(rehash, n, hs[0]);
      InsertedKeepsHas(d, b0, Positions(salts, hs[0]), b, ps);
      InsertAllKeeps(Inserted(d, b0, Positions(salts, hs[0])), salts, rehash, n, hs[1..], b, ps);
    }
  }

  /** No false negatives: an inserted hash is found, however many inserts follow. */
  lemma NoFalseNegatives(d: seq<U32>, salts: Salts, rehash: U32 -> U32, n: nat, hash: U32, later: seq<U32>)
    requires n > 0 && |d| == n * BucketWords
    ensures Has(InsertAll(d, salts, rehash, n, [hash] + later), Bucket(rehash, n, hash), Positions(salts, hash))
  {
    var b := Bucket(rehash, n, hash);
    InsertedHas(d, b, Positions(salts, hash));
    assert ([hash] + later)[1..] == later;
    InsertAllKeeps(Inserted(d, b, Positions(salts, hash)), salts, rehash, n, later, b, Positions(salts, hash));
  }

  /** Init's bucket count exponent: max(1, log_space_bytes - kLogBucketByteSize). */
  function LogNumBuckets(logSpaceBytes: int): (l: int)
    ensures l >= 1 && l >= logSpaceBytes - LogBucketByteSize
    ensures l == 1 || l == logSpaceBytes - LogBucketByteSize
  {
    if logSpaceBytes - LogBucketByteSize > 1 then logSpaceBytes - LogBucketByteSize else 1
  }

  class BlockBloomFilter {
    const salts: Salts
    /** Rehash32to32: the hash that picks the bucket. */
    const rehash: U32 -> U32
    var alwaysFalse: bool
    var logNumBuckets: int
    var directoryMask: nat
    var directory: array?<U32>

    /**
      The directory holds (directory_mask_ + 1) buckets, a power of two, so
      that directory_mask_ is a mask of log_num_buckets_ low bits.
    */
    ghost predicate Ready()
      reads this
    {
      && directory != null && directory.Length == (directoryMask + 1) * BucketWords
      && 0 <= logNumBuckets <= 32 && directoryMask + 1 == Pow2(logNumBuckets)
    }

    /**
      The bucket a hash goes to: Rehash32to32(hash) & directory_mask_, written
      as the remainder by directory_mask_ + 1, which is the same number
      whenever Ready() holds.
    */
    function BucketIndex(hash: U32): (b: nat)
      reads this
      ensures b <= directoryMask
    {
      Bucket(rehash, directoryMask + 1, hash)
    }

    /** Whether Find reports the hash: never on a filter nothing was inserted into. */
    ghost predicate Contains(hash: U32)
      reads this, directory
      requires alwaysFalse || Ready()
    {
      !alwaysFalse && Has(directory[..], BucketIndex(hash), Positions(salts, hash))
    }

    /** A filter with no directory yet, which finds nothing. */
    constructor(salts: Salts, rehash: U32 -> U32)
      ensures this.salts == salts && this.rehash == rehash
      ensures alwaysFalse && logNumBuckets == 0 && directoryMask == 0 && directory == null
    {
      this.salts := salts;
      this.rehash := rehash;
      alwaysFalse := true;
      logNumBuckets := 0;
      directoryMask := 0;
      directory := null;
    }

    /**
      Init: sizes the directory to 2^L buckets, L = max(1, logSpaceBytes - 5),
      and zeroes it. L above 32 is an InvalidArgument, with L already stored;
      allocOk says whether the buffer allocator found the memory.
    */
    method Init(logSpaceBytes: int, allocOk: bool) returns (r: Outcome<Status>)
      modifies this
      ensures logNumBuckets == LogNumBuckets(logSpaceBytes)
      ensures alwaysFalse == old(alwaysFalse)
      ensures logNumBuckets > 32 <==>
                r == Fail(InvalidArgument("Bloom filter too large. log_space_bytes: " + IntToString(logSpaceBytes)))
      ensures logNumBuckets > 32 ==> directoryMask == old(directoryMask) && directory == old(directory)
      ensures logNumBuckets <= 32 ==> directoryMask == Pow2(logNumBuckets) - 1
      ensures logNumBuckets <= 32 && !allocOk ==> r.Fail? && r.error.RuntimeError? && directory == null
      ensures r.Pass? <==> logNumBuckets <= 32 && allocOk
      ensures r.Pass? ==> Ready() && fresh(directory) && forall j :: 0 <= j < directory.Length ==> directory[j] == 0
    {
      logNumBuckets := LogNumBuckets(logSpaceBytes);
      if logNumBuckets > 32 {
        return Fail(InvalidArgument("Bloom filter too large. log_space_bytes: " + IntToString(logSpaceBytes)));
      }
      directoryMask := Pow2(logNumBuckets) - 1;
      Close();
      if !allocOk {
        return Fail(RuntimeError("bad_alloc. bytes: " + NatToString((directoryMask + 1) * BucketWords * 4)));
      }
      directory := new U32[(directoryMask + 1) * BucketWords](_ => 0);
      r := Pass;
    }

    /** Close: releases the directory. */
    method Close()
      modifies this
      ensures directory == null
      ensures alwaysFalse == old(alwaysFalse) && logNumBuckets == old(logNumBuckets)
      ensures directoryMask == old(directoryMask)
    {
      if directory != null {
        directory := null;
      }
    }

    /**
      BucketInsert: builds the eight selected bits, then ORs them into the words
      of bucket b (the source does the OR four words at a time with SSE).
    */
    method BucketInsert(b: nat, hash: U32)
      requires directory != null && InBucket(directory[..], b)
      modifies directory
      ensures unchanged(this)
      ensures directory[..] == Inserted(old(directory[..]), b, Positions(salts, hash))
    {
      ghost var ps := Positions(salts, hash);
      var newBucket := new nat[BucketWords];
      for i := 0 to BucketWords
        modifies newBucket
        invariant forall p :: 0 <= p < i ==> newBucket[p] == ps[p]
      {
        newBucket[i] := ((salts[i] * hash) % 0x1_0000_0000) / 0x800_0000;
      }
      ghost var d := directory[..];
      for i := 0 to BucketWords
        modifies directory
        invariant forall p :: 0 <= p < BucketWords ==> newBucket[p] == ps[p]
        invariant forall j :: 0 <= j < |d| ==>
                    directory[j] == if b * BucketWords <= j < b * BucketWords + i then Or(d[j], ps[j - b * BucketWords]) else d[j]
      {
        directory[b * BucketWords + i] := Or(directory[b * BucketWords + i], newBucket[i]);
      }
      assert directory[..] == Inserted(d, b, ps);
    }

    /** BucketFind: whether every word of bucket b has its selected bit. */
    method BucketFind(b: nat, hash: U32) returns (found: bool)
      requires directory != null && InBucket(directory[..], b)
      ensures found == Has(directory[..], b, Positions(salts, hash))
    {
      ghost var ps := Positions(salts, hash);
      for i := 0 to BucketWords
        invariant forall p :: 0 <= p < i ==> Bit(directory[b * BucketWords + p], ps[p])
      {
        var pos := ((salts[i] * hash) % 0x1_0000_0000) / 0x800_0000;
        assert pos == ps[i];
        if !Bit(directory[b * BucketWords + i], pos) {
          return false;
        }
      }
      return true;
    }

    /** Insert: marks the filter non-empty and sets the hash's bits in its bucket. */
    method Insert(hash: U32)
      requires Ready()
      modifies this, directory
      ensures directory == old(directory) && Ready() && !alwaysFalse
      ensures directory[..] == Inserted(old(directory[..]), BucketIndex(hash), Positions(salts, hash))
    {
      alwaysFalse := false;
      var b := BucketIndex(hash);
      BucketInsert(b, hash);
    }

    /** Find: false while nothing was inserted, else whether the hash's bucket has its bits. */
    method Find(hash: U32) returns (found: bool)
      requires alwaysFalse || Ready()
      ensures found == Contains(hash)
    {
      if alwaysFalse {
        return false;
      }
      var b := BucketIndex(hash);
      found := BucketFind(b, hash);
    }
  }

}
