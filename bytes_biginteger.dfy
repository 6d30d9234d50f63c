/**
  In-place byte reversal and the 16-byte little-endian BigInteger codec of the
  Java client's Bytes class. A BigInteger is an unbounded integer; its
  toByteArray is the shortest big-endian two's-complement encoding.
*/
module BytesBigInteger {
  import opened Wrappers
  import opened AsciiStrings
  import opened BytesCodec

  /** The bytes of s in the opposite order. */
  function Reversed(s: seq<Byte>): (r: seq<Byte>)
    ensures |r| == |s|
  {
    if |s| == 0 then [] else Reversed(s[1..]) + [s[0]]
  }

  /** Element i of the reversal is element |s| - 1 - i of the original. */
  lemma {:induction false} ReversedAt(s: seq<Byte>, i: int)
    requires 0 <= i < |s|
    ensures Reversed(s)[i] == s[|s| - 1 - i]
  {
    if i < |s| - 1 {
      ReversedAt(s[1..], i);
    }
  }

  /** Reversing twice gives the original bytes back. */
  lemma ReversedTwice(s: seq<Byte>)
    ensures Reversed(Reversed(s)) == s
  {
    forall i | 0 <= i < |s|
      ensures Reversed(Reversed(s))[i] == s[i]
    {
      ReversedAt(Reversed(s), i);
      ReversedAt(s, |s| - 1 - i);
    }
  }

  /** reverseBytes: swaps b[i] and b[len - i - 1] for every i below the midpoint. */
  method ReverseBytes(b: array<Byte>)
    modifies b
    ensures b[..] == Reversed(old(b[..]))
  {
    ghost var orig := b[..];
    var i := 0;
    while i < b.Length / 2
      invariant 0 <= i <= b.Length / 2
      invariant forall k :: 0 <= k < i ==> b[k] == orig[b.Length - 1 - k]
      invariant forall k :: b.Length - i <= k < b.Length ==> b[k] == orig[b.Length - 1 - k]
      invariant forall k :: i <= k < b.Length - i ==> b[k] == orig[k]
    {
      var temp := b[i];
      b[i] := b[b.Length - i - 1];
      b[b.Length - i - 1] := temp;
      i := i + 1;
    }
    forall k | 0 <= k < b.Length
      ensures b[k] == Reversed(orig)[k]
    {
      ReversedAt(orig, k);
    }
  }

  /** The length of BigInteger.toByteArray(n): the fewest bytes holding n in two's complement. */
  function MinTwosLen(n: int): (len: nat)
    ensures len >= 1
    decreases if n < 0 then -n else n
  {
    if -0x80 <= n < 0x80 then 1 else 1 + MinTwosLen(n / 256)
  }

  /** BigInteger.toByteArray: big-endian two's complement, in the fewest bytes. */
  function ToByteArray(n: int): (be: seq<Byte>)
    ensures |be| == MinTwosLen(n)
  {
    Reversed(Encode(n, MinTwosLen(n)))
  }

  /** new BigInteger(byte[]): the value of a big-endian two's-complement array. */
  function FromByteArray(be: seq<Byte>): int
    requires |be| >= 1
  {
    ToSigned(LE(Reversed(be)), |be|)
  }

  lemma HalfRangeStep(w: nat)
    requires w >= 2
    ensures HalfRange(w) == 256 * HalfRange(w - 1)
  {
  }

  /** n fits in w bytes exactly when its shortest encoding is at most w bytes long. */
  lemma {:induction false} MinTwosLenFits(n: int, w: nat)
    requires w >= 1
    ensures MinTwosLen(n) <= w <==> InSigned(n, w)
    decreases w
  {
    if w == 1 {
    } else {
      HalfRangeStep(w);
      var h := HalfRange(w - 1);
      assert h >= 0x80;
      if !(-0x80 <= n < 0x80) {
        MinTwosLenFits(n / 256, w - 1);
        assert (-h <= n / 256 < h) <==> (-256 * h <= n < 256 * h);
      }
    }
  }

  lemma {:induction false} ByteAtMinusOne(k: nat)
    ensures ByteAt(-1, k) == 0xFF
    decreases k
  {
    if k > 0 {
      ByteAtMinusOne(k - 1);
    }
  }

  lemma {:induction false} ByteAtZero(k: nat)
    ensures ByteAt(0, k) == 0
    decreases k
  {
    if k > 0 {
      ByteAtZero(k - 1);
    }
  }

  /** Past the shortest encoding, every byte is sign fill: 0xFF for negatives, 0 otherwise. */
  lemma {:induction false} SignFill(n: int, k: nat)
    requires k >= MinTwosLen(n)
    ensures ByteAt(n, k) == if n < 0 then 0xFF else 0
    decreases if n < 0 then -n else n
  {
    if -0x80 <= n < 0x80 {
      if n < 0 {
        ByteAtMinusOne(k - 1);
      } else {
        ByteAtZero(k - 1);
      }
    } else {
      SignFill(n / 256, k - 1);
    }
  }

  /** A new array of k copies of v, as Arrays.fill leaves a range. */
  function Fill(k: nat, v: Byte): (r: seq<Byte>)
    ensures |r| == k && forall i :: 0 <= i < k ==> r[i] == v
  {
    seq(k, _ => v)
  }

  /**
    getBigInteger: Arrays.copyOfRange(b, off, off + 16) copies what is there
    and pads with zeros (failing only when off is outside [0, |b|]); the copy is
    reversed into big-endian order and read as two's complement.
  */
  function GetBigInteger(b: seq<Byte>, off: int): (r: Result<int, JavaException>)
    ensures r.Ok? <==> 0 <= off <= |b|
    ensures r.Ok? ==> InSigned(r.value, 16)
  {
    if off < 0 || off > |b| then Err(IndexOutOfBounds)
    else
      var end := if off + 16 <= |b| then off + 16 else |b|;
      var copy := b[off..end] + Fill(off + 16 - end, 0);
      Ok(FromByteArray(Reversed(copy)))
  }

  /** The exception setBigInteger throws for a value wider than 16 bytes. */
  function TooWide(n: int): JavaException
  {
    IllegalArgument("Value is larger than the maximum 16 bytes: " + IntToString(n))
  }

  /** The Outcome of setBigInteger for n written at off into an array of length len. */
  function SetBigIntegerOutcome(n: int, off: int, len: nat): Outcome<JavaException>
  {
    var l := MinTwosLen(n);
    if l > 16 then Fail(TooWide(n))
    else if off < 0 || off + l > len then Fail(IndexOutOfBounds)
    else if n < 0 && off + 16 > len then Fail(IndexOutOfBounds)
    else Pass
  }

  /**
    The array after setBigInteger: the shortest encoding copied at off, then,
    for a negative n, 0xFF up to off + 16. A failed bounds check of the copy
    changes nothing; a failed bounds check of the fill keeps the copy.
  */
  function BigIntegerWritten(s: seq<Byte>, n: int, off: int): (r: seq<Byte>)
    ensures |r| == |s|
  {
    var le := Encode(n, MinTwosLen(n));
    if |le| > 16 || off < 0 || off + |le| > |s| then s
    else
      var copied := s[..off] + le + s[off + |le|..];
      if n < 0 && off + 16 <= |s| then
        copied[..off + |le|] + Fill(16 - |le|, 0xFF) + copied[off + 16..]
      else copied
  }

  /** toByteArray followed by reverseBytes: the shortest encoding of n, least significant byte first. */
  method LittleEndianBytes(n: int) returns (bytes: array<Byte>)
    ensures fresh(bytes)
    ensures bytes[..] == Encode(n, MinTwosLen(n))
  {
    var be := ToByteArray(n);
    bytes := new Byte[|be|](i requires 0 <= i < |be| => be[i]);
    assert bytes[..] == be;
    ReverseBytes(bytes);
    ReversedTwice(Encode(n, MinTwosLen(n)));
  }

  /** System.arraycopy(src, 0, b, off, src.Length), once its range check has passed. */
  method CopyInto(src: array<Byte>, b: array<Byte>, off: int)
    requires src != b
    requires 0 <= off && off + src.Length <= b.Length
    modifies b
    ensures b[..] == old(b[..off]) + src[..] + old(b[off + src.Length..])
  {
    forall i | 0 <= i < src.Length {
      b[off + i] := src[i];
    }
    CopiedIs(old(b[..]), b[..], src[..], off);
  }

  /** Arrays.fill(b, lo, hi, v), once its range check has passed. */
  method FillRange(b: array<Byte>, lo: int, hi: int, v: Byte)
    requires 0 <= lo <= hi <= b.Length
    modifies b
    ensures b[..] == old(b[..lo]) + Fill(hi - lo, v) + old(b[hi..])
  {
    forall i | lo <= i < hi {
      b[i] := v;
    }
    FilledIs(old(b[..]), b[..], lo, hi, v);
  }

  /** setBigInteger */
  method SetBigInteger(b: array<Byte>, n: int, off: int) returns (r: Outcome<JavaException>)
    modifies b
    ensures b[..] == BigIntegerWritten(old(b[..]), n, off)
    ensures r == SetBigIntegerOutcome(n, off, b.Length)
  {
    ghost var orig := b[..];
    if MinTwosLen(n) > 16 {
      WrittenUnchanged(orig, n, off);
      return Fail(TooWide(n));
    }
    var bytes := LittleEndianBytes(n);
    // System.arraycopy checks both ranges before copying anything.
    if off < 0 || off + bytes.Length > b.Length {
      WrittenUnchanged(orig, n, off);
      return Fail(IndexOutOfBounds);
    }
    CopyInto(bytes, b, off);
    ghost var copied := b[..];
    WrittenCopied(orig, n, off, copied);
    if n < 0 {
      // Arrays.fill checks its range before filling.
      if off + 16 > b.Length {
        return Fail(IndexOutOfBounds);
      }
      FillRange(b, off + bytes.Length, off + 16, 0xFF);
    }
    return Pass;
  }

  lemma WrittenUnchanged(s: seq<Byte>, n: int, off: int)
    requires MinTwosLen(n) > 16 || off < 0 || off + MinTwosLen(n) > |s|
    ensures BigIntegerWritten(s, n, off) == s
    ensures SetBigIntegerOutcome(n, off, |s|) ==
      if MinTwosLen(n) > 16 then Fail(TooWide(n)) else Fail(IndexOutOfBounds)
  {
  }

  lemma WrittenCopied(s: seq<Byte>, n: int, off: int, copied: seq<Byte>)
    requires MinTwosLen(n) <= 16 && 0 <= off && off + MinTwosLen(n) <= |s|
    requires copied == s[..off] + Encode(n, MinTwosLen(n)) + s[off + MinTwosLen(n)..]
    ensures var l := MinTwosLen(n);
      BigIntegerWritten(s, n, off) ==
        if n < 0 && off + 16 <= |s| then copied[..off + l] + Fill(16 - l, 0xFF) + copied[off + 16..]
        else copied
    ensures SetBigIntegerOutcome(n, off, |s|) ==
      if n < 0 && off + 16 > |s| then Fail(IndexOutOfBounds) else Pass
  {
  }

  lemma CopiedIs(orig: seq<Byte>, copied: seq<Byte>, le: seq<Byte>, off: int)
    requires 0 <= off && off + |le| <= |orig| == |copied|
    requires forall i :: 0 <= i < |le| ==> copied[off + i] == le[i]
    requires forall i :: 0 <= i < off || off + |le| <= i < |orig| ==> copied[i] == orig[i]
    ensures copied == orig[..off] + le + orig[off + |le|..]
  {
  }

  lemma FilledIs(copied: seq<Byte>, filled: seq<Byte>, lo: int, hi: int, v: Byte)
    requires 0 <= lo <= hi <= |copied| == |filled|
    requires forall i :: lo <= i < hi ==> filled[i] == v
    requires forall i :: 0 <= i < lo || hi <= i < |copied| ==> filled[i] == copied[i]
    ensures filled == copied[..lo] + Fill(hi - lo, v) + copied[hi..]
  {
  }

  /** A value wider than 16 bytes is refused before anything is written. */
  lemma SetBigIntegerTooWide(s: seq<Byte>, n: int, off: int)
    requires !InSigned(n, 16)
    ensures SetBigIntegerOutcome(n, off, |s|).Fail?
    ensures SetBigIntegerOutcome(n, off, |s|).error.IllegalArgument?
    ensures BigIntegerWritten(s, n, off) == s
  {
    MinTwosLenFits(n, 16);
  }

  /** Byte i of the array after a successful setBigInteger: the encoding, then sign fill, then what was there. */
  lemma WrittenIndex(s: seq<Byte>, n: int, off: int, i: int)
    requires MinTwosLen(n) <= 16
    requires 0 <= off && off + 16 <= |s|
    requires off <= i < off + 16
    ensures BigIntegerWritten(s, n, off)[i] ==
      if i < off + MinTwosLen(n) then Encode(n, MinTwosLen(n))[i - off]
      else if n < 0 then 0xFF else s[i]
  {
    var l := MinTwosLen(n);
    var le := Encode(n, l);
    var copied := s[..off] + le + s[off + l..];
    assert copied[i] == if i < off + l then le[i - off] else s[i];
    if n < 0 {
      var filled := copied[..off + l] + Fill(16 - l, 0xFF) + copied[off + 16..];
      assert BigIntegerWritten(s, n, off) == filled;
      assert filled[i] == if i < off + l then copied[i] else 0xFF;
    }
  }

  /** Byte k of the 16-byte window setBigInteger leaves on zeroed bytes is byte k of n's 16-byte encoding. */
  lemma WrittenWindowAt(s: seq<Byte>, n: int, off: int, k: int)
    requires MinTwosLen(n) <= 16
    requires 0 <= off && off + 16 <= |s|
    requires forall i :: off <= i < off + 16 ==> s[i] == 0
    requires 0 <= k < 16
    ensures BigIntegerWritten(s, n, off)[off + k] == Encode(n, 16)[k]
  {
    var l := MinTwosLen(n);
    assert Encode(n, 16)[k] == ByteAt(n, k) by {
      EncodeAt(n, 16, k);
    }
    assert BigIntegerWritten(s, n, off)[off + k] ==
      if k < l then Encode(n, l)[k] else if n < 0 then 0xFF else 0 by {
      WrittenIndex(s, n, off, off + k);
    }
    if k < l {
      EncodeAt(n, l, k);
    } else {
      SignFill(n, k);
    }
  }

  /**
    On a zeroed 16-byte window, setBigInteger followed by getBigInteger gives
    back every n that fits in 16 bytes.
  */
  lemma BigIntegerRoundTrip(s: seq<Byte>, n: int, off: int)
    requires InSigned(n, 16)
    requires 0 <= off && off + 16 <= |s|
    requires forall i :: off <= i < off + 16 ==> s[i] == 0
    ensures SetBigIntegerOutcome(n, off, |s|) == Pass
    ensures GetBigInteger(BigIntegerWritten(s, n, off), off) == Ok(n)
  {
    assert MinTwosLen(n) <= 16 by {
      MinTwosLenFits(n, 16);
    }
    var t := BigIntegerWritten(s, n, off);
    forall k | 0 <= k < 16
      ensures t[off..off + 16][k] == Encode(n, 16)[k]
    {
      WrittenWindowAt(s, n, off, k);
    }
    assert t[off..off + 16] == Encode(n, 16);
    ReadsEncoding(t, n, off);
  }

  /** getBigInteger over the 16-byte encoding of n gives n. */
  lemma ReadsEncoding(t: seq<Byte>, n: int, off: int)
    requires InSigned(n, 16)
    requires 0 <= off && off + 16 <= |t|
    requires t[off..off + 16] == Encode(n, 16)
    ensures GetBigInteger(t, off) == Ok(n)
  {
    var e := Encode(n, 16);
    assert t[off..off + 16] + Fill(0, 0) == e;
    assert Reversed(Reversed(e)) == e by {
      ReversedTwice(e);
    }
    assert ToSigned(LE(e), 16) == n by {
      LEEncode(n, 16);
      SignedRoundTrip(n, 16);
    }
  }

  /** toByteArray and new BigInteger(byte[]) are inverse. */
  lemma ToByteArrayRoundTrip(n: int)
    ensures FromByteArray(ToByteArray(n)) == n
  {
    var l := MinTwosLen(n);
    MinTwosLenFits(n, l);
    ReversedTwice(Encode(n, l));
    LEEncode(n, l);
    SignedRoundTrip(n, l);
  }
}
