/**
  Byte-array comparison in the Java client's Bytes class: memcmp (whole arrays
  and a window), deDup, equals, memcmpMaybeNull and xorLeftMostBit. Bytes are
  compared as unsigned values, which is what `b & 0xFF` does in Java.
*/
module BytesCompare {
  import opened Wrappers
  import opened BytesCodec

  /**
    The value memcmp returns: the difference of the first differing unsigned
    bytes, or else the difference of the lengths.
  */
  function CompareUnsigned(a: seq<Byte>, b: seq<Byte>): int
    decreases |a|
  {
    if |a| == 0 || |b| == 0 then |a| - |b|
    else if a[0] != b[0] then a[0] as int - b[0] as int
    else CompareUnsigned(a[1..], b[1..])
  }

  /** Unsigned lexicographic order, stated independently of CompareUnsigned. */
  predicate LexLess(a: seq<Byte>, b: seq<Byte>)
  {
    (exists k :: 0 <= k < |a| && k < |b| && a[..k] == b[..k] && a[k] < b[k])
    || (|a| < |b| && a == b[..|a|])
  }

  /** memcmp is 0 exactly on equal contents. */
  lemma {:induction false} CompareZero(a: seq<Byte>, b: seq<Byte>)
    ensures CompareUnsigned(a, b) == 0 <==> a == b
    decreases |a|
  {
    if |a| != 0 && |b| != 0 && a[0] == b[0] {
      CompareZero(a[1..], b[1..]);
      assert a == [a[0]] + a[1..] && b == [b[0]] + b[1..];
    }
  }

  /** Swapping the arguments negates the result. */
  lemma {:induction false} CompareAntisymmetric(a: seq<Byte>, b: seq<Byte>)
    ensures CompareUnsigned(b, a) == -CompareUnsigned(a, b)
    decreases |a|
  {
    if |a| != 0 && |b| != 0 && a[0] == b[0] {
      CompareAntisymmetric(a[1..], b[1..]);
    }
  }

  /** With equal first bytes, the order is the order of the tails. */
  lemma LexLessTail(a: seq<Byte>, b: seq<Byte>)
    requires |a| > 0 && |b| > 0 && a[0] == b[0]
    ensures LexLess(a, b) <==> LexLess(a[1..], b[1..])
  {
    if LexLess(a, b) {
      if k :| 0 <= k < |a| && k < |b| && a[..k] == b[..k] && a[k] < b[k] {
        assert k != 0;
        assert a[1..][..k - 1] == a[1..k] == b[1..k] == b[1..][..k - 1];
        assert a[1..][k - 1] < b[1..][k - 1];
      } else {
        assert a[1..] == b[1..][..|a| - 1];
      }
    }
    if LexLess(a[1..], b[1..]) {
      var a', b' := a[1..], b[1..];
      if k :| 0 <= k < |a'| && k < |b'| && a'[..k] == b'[..k] && a'[k] < b'[k] {
        assert a[..k + 1] == [a[0]] + a'[..k] == [b[0]] + b'[..k] == b[..k + 1];
        assert a[k + 1] < b[k + 1];
      } else {
        assert a == [a[0]] + a' == [b[0]] + b'[..|a'|] == b[..|a|];
      }
    }
  }

  /** A negative memcmp means exactly that a sorts before b, a proper prefix first. */
  lemma {:induction false} CompareNegative(a: seq<Byte>, b: seq<Byte>)
    ensures CompareUnsigned(a, b) < 0 <==> LexLess(a, b)
    decreases |a|
  {
    if |a| == 0 {
      if |b| > 0 {
        assert a == b[..0];
      }
    } else if |b| == 0 {
    } else if a[0] != b[0] {
      if a[0] < b[0] {
        assert a[..0] == b[..0];
      }
      if LexLess(a, b) {
        if k :| 0 <= k < |a| && k < |b| && a[..k] == b[..k] && a[k] < b[k] {
          if k > 0 {
            assert a[..k][0] == b[..k][0];
          }
        } else {
          assert a[0] == b[..|a|][0];
        }
      }
    } else {
      CompareNegative(a[1..], b[1..]);
      LexLessTail(a, b);
    }
  }

  /** A positive memcmp means exactly that b sorts before a. */
  lemma ComparePositive(a: seq<Byte>, b: seq<Byte>)
    ensures CompareUnsigned(a, b) > 0 <==> LexLess(b, a)
  {
    CompareAntisymmetric(a, b);
    CompareNegative(b, a);
  }

  /** memcmp(a, b): identity first, then the first differing byte, then the lengths. */
  method Memcmp(a: array<Byte>, b: array<Byte>) returns (r: int)
    ensures r == CompareUnsigned(a[..], b[..])
  {
    var length := if a.Length < b.Length then a.Length else b.Length;
    if a == b {
      CompareZero(a[..], b[..]);
      return 0;
    }
    var i := 0;
    while i < length
      invariant 0 <= i <= length
      invariant CompareUnsigned(a[..], b[..]) == CompareUnsigned(a[i..], b[i..])
    {
      if a[i] != b[i] {
        return a[i] as int - b[i] as int;
      }
      assert a[i..][1..] == a[i + 1..] && b[i..][1..] == b[i + 1..];
      i := i + 1;
    }
    return a.Length - b.Length;
  }

  /**
    The value memcmp(a, b, offset, length) returns when it compares indices
    lo up to hi: 0 on equal windows, otherwise the first unsigned difference;
    an index outside either array throws.
  */
  function CompareWindow(a: seq<Byte>, b: seq<Byte>, lo: int, hi: int): Result<int, JavaException>
    decreases hi - lo
  {
    if lo >= hi then Ok(0)
    else if lo < 0 || lo >= |a| || lo >= |b| then Err(IndexOutOfBounds)
    else if a[lo] != b[lo] then Ok(a[lo] as int - b[lo] as int)
    else CompareWindow(a, b, lo + 1, hi)
  }

  /** Inside both arrays, the windowed memcmp is memcmp of the two windows. */
  lemma {:induction false} CompareWindowInBounds(a: seq<Byte>, b: seq<Byte>, lo: int, hi: int)
    requires 0 <= lo <= hi <= |a| && hi <= |b|
    ensures CompareWindow(a, b, lo, hi) == Ok(CompareUnsigned(a[lo..hi], b[lo..hi]))
    decreases hi - lo
  {
    if lo < hi && a[lo] == b[lo] {
      CompareWindowInBounds(a, b, lo + 1, hi);
      assert a[lo..hi][1..] == a[lo + 1..hi] && b[lo..hi][1..] == b[lo + 1..hi];
    }
  }

  /** memcmp(a, b, offset, length); `length += offset` wraps as a Java int. */
  method MemcmpWindow(a: array<Byte>, b: array<Byte>, offset: Int, length: Int) returns (r: Result<int, JavaException>)
    ensures a == b ==> r == Ok(0)
    ensures a != b ==> r == CompareWindow(a[..], b[..], offset, ToInt(length + offset))
  {
    if a == b {
      return Ok(0);
    }
    var end := ToInt(length + offset);
    var i: int := offset;
    while i < end
      invariant offset <= i || end <= offset
      invariant CompareWindow(a[..], b[..], offset, end) ==
        if i < end || offset >= end then CompareWindow(a[..], b[..], i, end) else Ok(0)
      decreases end - i
    {
      if i < 0 || i >= a.Length || i >= b.Length {
        return Err(IndexOutOfBounds);
      }
      if a[i] != b[i] {
        return Ok(a[i] as int - b[i] as int);
      }
      i := i + 1;
    }
    return Ok(0);
  }

  /** deDup: keeps the old array when the new one has the same contents. */
  method DeDup(old_: array<Byte>, neww: array<Byte>) returns (r: array<Byte>)
    ensures r == if old_[..] == neww[..] then old_ else neww
  {
    var c := Memcmp(old_, neww);
    CompareZero(old_[..], neww[..]);
    r := if c == 0 then old_ else neww;
  }

  /** equals: memcmp(a, b) == 0. */
  method Equals(a: array<Byte>, b: array<Byte>) returns (eq: bool)
    ensures eq <==> a[..] == b[..]
  {
    var c := Memcmp(a, b);
    CompareZero(a[..], b[..]);
    eq := c == 0;
  }

  /** The contents of a possibly null array. */
  function Contents(a: array?<Byte>): Option<seq<Byte>>
    reads a
  {
    if a == null then None else Some(a[..])
  }

  /** The order memcmpMaybeNull implements: null before every array, arrays by memcmp. */
  function CompareMaybeNull(a: Option<seq<Byte>>, b: Option<seq<Byte>>): (r: int)
    ensures a.Some? && b.Some? ==> r == CompareUnsigned(a.value, b.value)
  {
    match (a, b)
    case (None, None) => 0
    case (None, Some(_)) => -1
    case (Some(_), None) => 1
    case (Some(x), Some(y)) => CompareUnsigned(x, y)
  }

  /** null sorts first, two nulls are equal, and the order stays antisymmetric. */
  lemma NullFirst(a: Option<seq<Byte>>, b: Option<seq<Byte>>)
    ensures CompareMaybeNull(a, b) == 0 <==> a == b
    ensures a.None? && b.Some? ==> CompareMaybeNull(a, b) < 0
    ensures (CompareMaybeNull(a, b) < 0) == (CompareMaybeNull(b, a) > 0)
  {
    if a.Some? && b.Some? {
      CompareZero(a.value, b.value);
      CompareAntisymmetric(a.value, b.value);
    }
  }

  /** memcmpMaybeNull */
  method MemcmpMaybeNull(a: array?<Byte>, b: array?<Byte>) returns (r: int)
    ensures r == CompareMaybeNull(Contents(a), Contents(b))
  {
    if a == null {
      if b == null {
        return 0;
      }
      return -1;
    } else if b == null {
      return 1;
    }
    r := Memcmp(a, b);
  }

  /** xorLeftMostBit: flips bit 7 of the byte. */
  function XorLeftMostBit(v: Byte): (r: Byte)
    ensures r % 0x80 == v % 0x80
    ensures r >= 0x80 <==> v < 0x80
  {
    if v >= 0x80 then v - 0x80 else v + 0x80
  }

  /** Flipping twice restores the byte. */
  lemma XorLeftMostBitInvolution(v: Byte)
    ensures XorLeftMostBit(XorLeftMostBit(v)) == v
  {
  }

  /** After the flip, unsigned order on bytes is signed order on the originals. */
  lemma XorLeftMostBitOrder(x: Byte, y: Byte)
    ensures SignedByte(x) < SignedByte(y) <==> XorLeftMostBit(x) < XorLeftMostBit(y)
  {
  }
}
