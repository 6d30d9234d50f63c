/**
  Packing a java.util.BitSet into bytes and back (getBitSetSize, fromBitSet,
  toBitSet in the Java client's Bytes class). Bit i of the set lives in bit
  i % 8 of byte i / 8.
*/
module BytesBitSet {
  import opened Wrappers
  import opened BytesCodec

  /**
    A BitSet as its bits in index order: bit i is set when i < |s| and s[i].
    Trailing clear bits do not change the set, so two sequences denote the
    same BitSet when SameBits holds.
  */
  type BitSet = seq<bool>

  predicate Get(s: BitSet, i: nat)
  {
    i < |s| && s[i]
  }

  ghost predicate SameBits(s: BitSet, t: BitSet)
  {
    forall i: nat :: Get(s, i) == Get(t, i)
  }

  /** BitSet.length(): one past the highest set bit, 0 for the empty set. */
  function Length(s: BitSet): (n: nat)
    ensures n <= |s|
    ensures n > 0 ==> Get(s, n - 1)
    ensures forall i: nat :: n <= i ==> !Get(s, i)
  {
    if |s| == 0 then 0
    else if s[|s| - 1] then |s|
    else
      var p := s[..|s| - 1];
      assert forall i: nat :: Get(p, i) == (i < |s| - 1 && Get(s, i));
      Length(p)
  }

  /** Bit k of a non-negative number: (x >> k) & 1. */
  predicate Bit(x: nat, k: nat)
  {
    if k == 0 then x % 2 == 1 else Bit(x / 2, k - 1)
  }

  function Pow2(m: nat): (r: nat)
    ensures r >= 1
  {
    if m == 0 then 1 else 2 * Pow2(m - 1)
  }

  /** x | (1 << k) */
  function SetBit(x: nat, k: nat): nat
  {
    if k == 0 then (if x % 2 == 1 then x else x + 1)
    else x % 2 + 2 * SetBit(x / 2, k - 1)
  }

  /** Setting bit k sets bit k and leaves every other bit alone. */
  lemma {:induction false} SetBitBits(x: nat, k: nat, j: nat)
    ensures Bit(SetBit(x, k), j) == (j == k || Bit(x, j))
    decreases k
  {
    if k > 0 && j > 0 {
      SetBitBits(x / 2, k - 1, j - 1);
    }
  }

  lemma {:induction false} BitOfZero(k: nat)
    ensures !Bit(0, k)
  {
    if k > 0 {
      BitOfZero(k - 1);
    }
  }

  /** Setting a bit below m keeps a number below 2^m. */
  lemma {:induction false} SetBitBound(x: nat, k: nat, m: nat)
    requires x < Pow2(m) && k < m
    ensures SetBit(x, k) < Pow2(m)
    decreases k
  {
    assert Pow2(m) == 2 * Pow2(m - 1);
    if k > 0 {
      assert x / 2 < Pow2(m - 1);
      SetBitBound(x / 2, k - 1, m - 1);
      assert SetBit(x, k) == x % 2 + 2 * SetBit(x / 2, k - 1);
    }
  }

  /** Two numbers below 2^m with the same m low bits are equal. */
  lemma {:induction false} BitsDetermine(x: nat, y: nat, m: nat)
    requires x < Pow2(m) && y < Pow2(m)
    requires forall j: nat :: j < m ==> Bit(x, j) == Bit(y, j)
    ensures x == y
    decreases m
  {
    if m > 0 {
      assert Bit(x, 0) == Bit(y, 0);
      forall j: nat | j < m - 1
        ensures Bit(x / 2, j) == Bit(y / 2, j)
      {
        assert Bit(x, j + 1) == Bit(y, j + 1);
      }
      BitsDetermine(x / 2, y / 2, m - 1);
    }
  }

  /** The m bits of s from index base, as a number: bit k is Get(s, base + k). */
  function Pack(s: BitSet, base: nat, m: nat): (r: nat)
    ensures r < Pow2(m)
    decreases m
  {
    if m == 0 then 0 else (if Get(s, base) then 1 else 0) + 2 * Pack(s, base + 1, m - 1)
  }

  lemma {:induction false} PackBits(s: BitSet, base: nat, m: nat, k: nat)
    requires k < m
    ensures Bit(Pack(s, base, m), k) == Get(s, base + k)
    decreases m
  {
    if k > 0 {
      PackBits(s, base + 1, m - 1, k - 1);
    }
  }

  /** Byte j of a packed BitSet. */
  function PackedByte(s: BitSet, j: nat): Byte
  {
    assert Pow2(8) == 0x100;
    Pack(s, 8 * j, 8)
  }

  /** Java's int division, which truncates toward zero. */
  function JavaDiv(x: int, d: int): int
    requires d > 0
  {
    if x >= 0 then x / d else -((-x) / d)
  }

  /** getBitSetSize: (items + 7) / 8 on Java ints. */
  function GetBitSetSize(items: Int): Int
  {
    ToInt(JavaDiv(ToInt(items + 7), 8))
  }

  /** Without overflow, getBitSetSize is the number of bytes that hold items bits: ceil(items / 8). */
  lemma GetBitSetSizeCeil(items: Int)
    requires 0 <= items <= 0x7FFF_FFF8
    ensures 8 * GetBitSetSize(items) >= items
    ensures 8 * GetBitSetSize(items) < items + 8
  {
    assert ToInt(items + 7) == items + 7;
    assert JavaDiv(items + 7, 8) == (items + 7) / 8;
  }

  /** Past 2^31 - 8, items + 7 wraps and getBitSetSize turns negative. */
  lemma GetBitSetSizeOverflow(items: Int)
    requires items > 0x7FFF_FFF8
    ensures GetBitSetSize(items) < 0
  {
  }

  /**
    What fromBitSet(bits, colCount) produces: the packed bytes, or the
    exception of `new byte[negative]` or of writing a set bit past the array.
  */
  function FromBitSetResult(bits: BitSet, colCount: Int): Result<seq<Byte>, JavaException>
  {
    var size := GetBitSetSize(colCount);
    if size < 0 then Err(NegativeArraySize)
    else if Length(bits) > 8 * size then Err(IndexOutOfBounds)
    else Ok(seq(size, j requires 0 <= j < size => PackedByte(bits, j)))
  }

  /** fromBitSet */
  method FromBitSet(bits: BitSet, colCount: Int) returns (r: Result<seq<Byte>, JavaException>)
    ensures r == FromBitSetResult(bits, colCount)
  {
    var size := GetBitSetSize(colCount);
    if size < 0 {
      return Err(NegativeArraySize);
    }
    var bytes := new Byte[size](_ => 0);
    forall k: nat {
      BitOfZero(k);
    }
    var i := 0;
    var n := Length(bits);
    while i < n
      invariant 0 <= i <= n
      invariant forall m :: 0 <= m < i && bits[m] ==> m / 8 < size
      invariant forall j: nat, k: nat :: j < size && k < 8 ==>
        (Bit(bytes[j], k) <==> 8 * j + k < i && Get(bits, 8 * j + k))
    {
      if bits[i] {
        if i / 8 >= size {
          return Err(IndexOutOfBounds);
        }
        SetBitInByte(bytes, i, bits);
      }
      i := i + 1;
    }
    PackedFromBits(bytes[..], bits);
    return Ok(bytes[..]);
  }

  /** Bytes whose bits are the bits of a BitSet are its packed bytes. */
  lemma PackedFromBits(bytes: seq<Byte>, bits: BitSet)
    requires forall j: nat, k: nat :: j < |bytes| && k < 8 ==> (Bit(bytes[j], k) <==> Get(bits, 8 * j + k))
    ensures bytes == seq(|bytes|, j requires 0 <= j < |bytes| => PackedByte(bits, j))
  {
    forall j | 0 <= j < |bytes|
      ensures bytes[j] == PackedByte(bits, j)
    {
      forall k: nat | k < 8
        ensures Bit(bytes[j], k) == Bit(PackedByte(bits, j), k)
      {
        PackBits(bits, 8 * j, 8, k);
      }
      assert Pow2(8) == 0x100;
      BitsDetermine(bytes[j], PackedByte(bits, j), 8);
    }
  }

  /** bytes[i / 8] |= (byte)(1 << (i % 8)), one step of fromBitSet's loop. */
  method SetBitInByte(bytes: array<Byte>, i: nat, ghost bits: BitSet)
    requires i / 8 < bytes.Length && Get(bits, i)
    requires forall j: nat, k: nat :: j < bytes.Length && k < 8 ==>
      (Bit(bytes[j], k) <==> 8 * j + k < i && Get(bits, 8 * j + k))
    modifies bytes
    ensures forall j: nat, k: nat :: j < bytes.Length && k < 8 ==>
      (Bit(bytes[j], k) <==> 8 * j + k < i + 1 && Get(bits, 8 * j + k))
  {
    var j0, k0 := i / 8, i % 8;
    assert Pow2(8) == 0x100;
    SetBitBound(bytes[j0], k0, 8);
    ghost var before := bytes[j0];
    bytes[j0] := SetBit(bytes[j0], k0);
    forall j: nat, k: nat | j < bytes.Length && k < 8
      ensures Bit(bytes[j], k) <==> 8 * j + k < i + 1 && Get(bits, 8 * j + k)
    {
      if j == j0 {
        SetBitBits(before, k0, k);
      }
    }
  }

  /**
    What toBitSet(b, offset, colCount) produces: bit i is bit i % 8 of byte
    offset + i / 8; a negative colCount or a byte outside b throws.
  */
  function ToBitSetResult(b: seq<Byte>, offset: Int, colCount: Int): Result<BitSet, JavaException>
  {
    if colCount < 0 then Err(NegativeArraySize)
    else if colCount > 0 && (offset < 0 || offset + (colCount - 1) / 8 >= |b|) then Err(IndexOutOfBounds)
    else Ok(seq(colCount, i requires 0 <= i < colCount => Bit(b[offset + i / 8], i % 8)))
  }

  /** toBitSet */
  method ToBitSet(b: array<Byte>, offset: Int, colCount: Int) returns (r: Result<BitSet, JavaException>)
    ensures r == ToBitSetResult(b[..], offset, colCount)
  {
    if colCount < 0 {
      return Err(NegativeArraySize);
    }
    ghost var bb := b[..];
    var bs: BitSet := seq(colCount, _ => false);
    var i := 0;
    while i < colCount
      invariant 0 <= i <= colCount == |bs|
      invariant i > 0 ==> 0 <= offset && offset + (i - 1) / 8 < b.Length
      invariant forall k :: 0 <= k < colCount ==> bs[k] == (k < i && Bit(b[offset + k / 8], k % 8))
    {
      if offset + i / 8 < 0 || offset + i / 8 >= b.Length {
        return Err(IndexOutOfBounds);
      }
      if Bit(b[offset + i / 8], i % 8) {
        bs := bs[i := true];
      }
      i := i + 1;
    }
    assert bs == seq(colCount, k requires 0 <= k < colCount => Bit(bb[offset + k / 8], k % 8));
    return Ok(bs);
  }

  /**
    toBitSet(fromBitSet(bits, c), 0, c) is bits again when every set bit is
    below c, and fromBitSet uses ceil(c / 8) bytes.
  */
  lemma BitSetRoundTrip(bits: BitSet, c: Int)
    requires 0 <= c <= 0x7FFF_FFF8
    requires Length(bits) <= c
    ensures FromBitSetResult(bits, c).Ok?
    ensures var bytes := FromBitSetResult(bits, c).value;
      8 * |bytes| >= c && 8 * |bytes| < c + 8
      && ToBitSetResult(bytes, 0, c).Ok?
      && SameBits(ToBitSetResult(bytes, 0, c).value, bits)
  {
    FromBitSetFits(bits, c);
    var bytes := FromBitSetResult(bits, c).value;
    ToBitSetFits(bytes, c);
    var t := ToBitSetResult(bytes, 0, c).value;
    forall i: nat
      ensures Get(t, i) == Get(bits, i)
    {
      RoundTripBit(bits, c, bytes, t, i);
    }
  }

  /** One bit of the round trip: it goes to bit i % 8 of byte i / 8 and comes back from there. */
  lemma RoundTripBit(bits: BitSet, c: nat, bytes: seq<Byte>, t: BitSet, i: nat)
    requires Length(bits) <= c <= 8 * |bytes|
    requires forall j :: 0 <= j < |bytes| ==> bytes[j] == PackedByte(bits, j)
    requires |t| == c && forall i :: 0 <= i < c ==> t[i] == Bit(bytes[i / 8], i % 8)
    ensures Get(t, i) == Get(bits, i)
  {
    if i < c {
      var j, k := i / 8, i % 8;
      assert 8 * j + k == i && j < |bytes| && k < 8;
      UnpackPacked(bits, bytes, j, k);
    }
  }

  lemma FromBitSetFits(bits: BitSet, c: Int)
    requires 0 <= c <= 0x7FFF_FFF8
    requires Length(bits) <= c
    ensures FromBitSetResult(bits, c).Ok?
    ensures var bytes := FromBitSetResult(bits, c).value;
      8 * |bytes| >= c && 8 * |bytes| < c + 8
      && forall j :: 0 <= j < |bytes| ==> bytes[j] == PackedByte(bits, j)
  {
    GetBitSetSizeCeil(c);
  }

  lemma ToBitSetFits(bytes: seq<Byte>, c: Int)
    requires 0 <= c <= 8 * |bytes|
    ensures ToBitSetResult(bytes, 0, c).Ok?
    ensures var t := ToBitSetResult(bytes, 0, c).value;
      |t| == c && forall i :: 0 <= i < c ==> t[i] == Bit(bytes[i / 8], i % 8)
  {
  }

  lemma UnpackPacked(bits: BitSet, bytes: seq<Byte>, j: nat, k: nat)
    requires j < |bytes| && k < 8
    requires forall j :: 0 <= j < |bytes| ==> bytes[j] == PackedByte(bits, j)
    ensures Bit(bytes[j], k) == Get(bits, 8 * j + k)
  {
    PackBits(bits, 8 * j, 8, k);
  }
}
