/**
  Fixed-width little-endian encoding of Java integers into byte arrays, as the
  Kudu Java client's Bytes utility class does it: 2-, 4- and 8-byte signed
  readers and writers, their unsigned views, and the arithmetic they rest on.

  A Java byte is held as its 8-bit pattern read as an unsigned number, which is
  what `b & 0xFF` yields; SignedByte gives the value Java's sign extension sees. Java's fixed-width integers are unbounded integers restricted
  to their range, and every wrap-around is written out.
*/
module BytesCodec {
  import opened Wrappers

  type Byte = b: int | 0 <= b < 0x100

  type Short = n: int | -0x8000 <= n < 0x8000
  type Int = n: int | -0x8000_0000 <= n < 0x8000_0000
  type Long = n: int | -0x8000_0000_0000_0000 <= n < 0x8000_0000_0000_0000

  /** The Java exceptions the byte utilities can throw. */
  datatype JavaException = IndexOutOfBounds | NegativeArraySize | IllegalArgument(msg: string)

  /** 256^w, the number of values w bytes can hold. */
  function Pow256(w: nat): (r: nat)
    ensures r >= 1
  {
    if w == 0 then 1 else 256 * Pow256(w - 1)
  }

  lemma Pow256Values()
    ensures Pow256(1) == 0x100 && Pow256(2) == 0x1_0000 && Pow256(3) == 0x100_0000
    ensures Pow256(4) == 0x1_0000_0000 && Pow256(8) == 0x1_0000_0000_0000_0000
    ensures Pow256(16) == 0x1_0000_0000_0000_0000_0000_0000_0000_0000
  {
  }

  /** Half of 256^w: the w-byte two's-complement range is [-HalfRange(w), HalfRange(w)). */
  function HalfRange(w: nat): (h: nat)
    requires w >= 1
    ensures Pow256(w) == 2 * h
  {
    128 * Pow256(w - 1)
  }

  /** Whether n fits in w bytes of two's complement. */
  predicate InSigned(n: int, w: nat)
    requires w >= 1
  {
    -(HalfRange(w) as int) <= n < HalfRange(w)
  }

  /** The unsigned value of a little-endian byte sequence, each byte read as `b & 0xFF`. */
  function LE(s: seq<Byte>): (r: nat)
    ensures r < Pow256(|s|)
  {
    if |s| == 0 then 0 else s[0] + 256 * LE(s[1..])
  }

  /** Byte k of n's two's-complement representation: (byte)(n >>> 8k). */
  function ByteAt(n: int, k: nat): Byte
    decreases k
  {
    if k == 0 then ToByte(n) else ByteAt(n / 256, k - 1)
  }

  /** The w low-order bytes of n, least significant first. */
  function Encode(n: int, w: nat): (s: seq<Byte>)
    ensures |s| == w
    decreases w
  {
    if w == 0 then [] else [ByteAt(n, 0)] + Encode(n / 256, w - 1)
  }

  /** The signed value whose w-byte two's-complement pattern is u: the narrowing cast. */
  function ToSigned(u: int, w: nat): (r: int)
    requires w >= 1 && 0 <= u < Pow256(w)
    ensures InSigned(r, w)
    ensures r % Pow256(w) == u
    ensures r == u || r == u - Pow256(w)
  {
    var p := Pow256(w);
    if u >= HalfRange(w) then
      DivModUnique(u - p, p, -1, u);
      u - p
    else
      DivModUnique(u, p, 0, u);
      u
  }

  /** Euclidean division by a positive divisor is unique. */
  lemma DivModUnique(n: int, d: int, q: int, r: int)
    requires d > 0 && 0 <= r < d && n == d * q + r
    ensures n / d == q && n % d == r
  {
    var q', r' := n / d, n % d;
    assert n == d * q' + r';
    assert d * (q - q') == r' - r;
    if q > q' {
      MulAtLeast(d, q - q');
      assert false;
    } else if q < q' {
      MulAtLeast(d, q' - q);
      assert false;
    }
  }

  lemma MulAtLeast(d: int, k: int)
    requires d > 0 && k >= 1
    ensures d * k >= d
  {
  }

  /** Dividing by a and then by b is dividing by a * b; the remainders combine likewise. */
  lemma DivModSplit(n: int, a: int, b: int)
    requires a >= 1 && b >= 1
    ensures n / (a * b) == (n / a) / b
    ensures n % (a * b) == n % a + a * ((n / a) % b)
  {
    var q1, r1 := n / a, n % a;
    var q2, r2 := q1 / b, q1 % b;
    assert n == a * b * q2 + (a * r2 + r1) by {
      assert n == a * q1 + r1;
      assert q1 == b * q2 + r2;
    }
    assert 0 <= a * r2 + r1 < a * b by {
      assert a * r2 <= a * (b - 1);
    }
    DivModUnique(n, a * b, q2, a * r2 + r1);
  }

  /** Java's (byte) cast: the low 8 bits of an integer. */
  function ToByte(x: int): Byte
  {
    x % 256
  }

  /** Java's sign extension of a byte to an int. */
  function SignedByte(b: Byte): (r: int)
    ensures -128 <= r < 128
    ensures r % 256 == b
  {
    if b < 0x80 then b else DivModUnique(b - 256, 256, -1, b); b - 256
  }

  /** The recursive ByteAt is the shift-and-mask formula (n >>> 8k) & 0xFF. */
  lemma {:induction false} ByteAtShift(n: int, k: nat)
    ensures ByteAt(n, k) == (n / Pow256(k)) % 256
    decreases k
  {
    if k > 0 {
      var p := Pow256(k - 1);
      ByteAtShift(n / 256, k - 1);
      DivModSplit(n, 256, p);
      assert Pow256(k) == 256 * p;
      assert n / Pow256(k) == (n / 256) / p;
    }
  }

  lemma {:induction false} EncodeAt(n: int, w: nat, k: nat)
    requires k < w
    decreases k
    ensures Encode(n, w)[k] == ByteAt(n, k)
  {
    if k > 0 {
      EncodeAt(n / 256, w - 1, k - 1);
    }
  }

  /** Encoding n in w bytes and reading them back gives n modulo 256^w. */
  lemma {:induction false} LEEncode(n: int, w: nat)
    ensures LE(Encode(n, w)) == n % Pow256(w)
    decreases w
  {
    if w > 0 {
      var p := Pow256(w - 1);
      LEEncode(n / 256, w - 1);
      var s := Encode(n, w);
      assert s[1..] == Encode(n / 256, w - 1);
      assert LE(s) == (n % 256) + 256 * ((n / 256) % p);
      DivModSplit(n, 256, p);
      assert Pow256(w) == 256 * p;
    }
  }

  /** Reading w bytes and encoding the value again gives the same bytes. */
  lemma {:induction false} EncodeLE(s: seq<Byte>)
    ensures Encode(LE(s), |s|) == s
  {
    if |s| > 0 {
      EncodeLE(s[1..]);
      DivModUnique(LE(s), 256, LE(s[1..]), s[0]);
    }
  }

  /** Narrowing the w-byte pattern of an in-range n gives n back. */
  lemma SignedRoundTrip(n: int, w: nat)
    requires w >= 1 && InSigned(n, w)
    ensures 0 <= n % Pow256(w) < Pow256(w)
    ensures ToSigned(n % Pow256(w), w) == n
  {
    var p := Pow256(w);
    if n < 0 {
      DivModUnique(n, p, -1, n + p);
    } else {
      DivModUnique(n, p, 0, n);
    }
  }

  /** The array after writing the w low-order bytes of n at off; bytes outside [off, off+w) keep their value. */
  function Written(s: seq<Byte>, n: int, off: int, w: nat): (r: seq<Byte>)
    ensures |r| == |s|
  {
    seq(|s|, i requires 0 <= i < |s| => WrittenAt(s, n, off, w, i))
  }

  function WrittenAt(s: seq<Byte>, n: int, off: int, w: nat, i: int): Byte
    requires 0 <= i < |s|
  {
    if 0 <= off <= i < off + w then ByteAt(n, i - off) else s[i]
  }

  /** The w bytes at off, as an unsigned number; IndexOutOfBounds when they are not all inside b. */
  function ReadLE(b: seq<Byte>, off: int, w: nat): (r: Result<nat, JavaException>)
    ensures r.Ok? <==> 0 <= off && off + w <= |b|
    ensures r.Ok? ==> r.value < Pow256(w) && Encode(r.value, w) == b[off..off + w]
    ensures r.Err? ==> r.error == IndexOutOfBounds
  {
    if 0 <= off && off + w <= |b| then
      EncodeLE(b[off..off + w]);
      Ok(LE(b[off..off + w]))
    else
      Err(IndexOutOfBounds)
  }

  /** Reading back what was written yields the written value modulo 256^w. */
  lemma ReadWritten(s: seq<Byte>, n: int, off: int, w: nat)
    requires 0 <= off && off + w <= |s|
    ensures ReadLE(Written(s, n, off, w), off, w) == Ok(n % Pow256(w))
  {
    var t := Written(s, n, off, w);
    forall k | 0 <= k < w
      ensures t[off..off + w][k] == Encode(n, w)[k]
    {
      EncodeAt(n, w, k);
    }
    assert t[off..off + w] == Encode(n, w);
    LEEncode(n, w);
  }

  // ---- Readers ----

  /** getShort: the little-endian 16-bit value at off. */
  function GetShort(b: seq<Byte>, off: int): (r: Result<Short, JavaException>)
    ensures r.Ok? <==> 0 <= off && off + 2 <= |b|
    ensures r.Ok? ==> r.value % 0x1_0000 == LE(b[off..off + 2])
  {
    var u :- ReadLE(b, off, 2);
    Ok(ToSigned(u, 2))
  }

  /** getUnsignedShort: getShort & 0xFFFF, the same two bytes read without sign. */
  function GetUnsignedShort(b: seq<Byte>, off: int): (r: Result<int, JavaException>)
    ensures r.Ok? <==> 0 <= off && off + 2 <= |b|
    ensures r.Ok? ==> 0 <= r.value < 0x1_0000 && r.value == LE(b[off..off + 2])
    ensures r.Ok? ==> r.value == GetShort(b, off).value % 0x1_0000
  {
    var s :- GetShort(b, off);
    Ok(s % 0x1_0000)
  }

  /** getInt: the little-endian 32-bit value at off. */
  function GetInt(b: seq<Byte>, off: int): (r: Result<Int, JavaException>)
    ensures r.Ok? <==> 0 <= off && off + 4 <= |b|
    ensures r.Ok? ==> r.value % 0x1_0000_0000 == LE(b[off..off + 4])
  {
    var u :- ReadLE(b, off, 4);
    Ok(ToSigned(u, 4))
  }

  /** getUnsignedInt: getInt & 0xFFFFFFFFL. */
  function GetUnsignedInt(b: seq<Byte>, off: int): (r: Result<int, JavaException>)
    ensures r.Ok? <==> 0 <= off && off + 4 <= |b|
    ensures r.Ok? ==> 0 <= r.value < 0x1_0000_0000 && r.value == LE(b[off..off + 4])
    ensures r.Ok? ==> r.value == GetInt(b, off).value % 0x1_0000_0000
  {
    var i :- GetInt(b, off);
    Ok(i % 0x1_0000_0000)
  }

  /** getLong: the little-endian 64-bit value at off. */
  function GetLong(b: seq<Byte>, off: int): (r: Result<Long, JavaException>)
    ensures r.Ok? <==> 0 <= off && off + 8 <= |b|
    ensures r.Ok? ==> r.value % 0x1_0000_0000_0000_0000 == LE(b[off..off + 8])
  {
    var u :- ReadLE(b, off, 8);
    Ok(ToSigned(u, 8))
  }

  /** getUnsignedLong: getLong, plus 2^64 when that is negative. */
  function GetUnsignedLong(b: seq<Byte>, off: int): (r: Result<int, JavaException>)
    ensures r.Ok? <==> 0 <= off && off + 8 <= |b|
    ensures r.Ok? ==> 0 <= r.value < 0x1_0000_0000_0000_0000 && r.value == LE(b[off..off + 8])
    ensures r.Ok? ==> r.value == GetLong(b, off).value % 0x1_0000_0000_0000_0000
  {
    var l :- GetLong(b, off);
    if l < 0 then
      DivModUnique(l, 0x1_0000_0000_0000_0000, -1, l + 0x1_0000_0000_0000_0000);
      Ok(l + 0x1_0000_0000_0000_0000)
    else
      Ok(l)
  }

  /** Java's int arithmetic: the low 32 bits of x as a signed int. */
  function ToInt(x: int): (r: Int)
    ensures r % 0x1_0000_0000 == x % 0x1_0000_0000
    ensures -0x8000_0000 <= x < 0x8000_0000 ==> r == x
  {
    Pow256Values();
    ToSigned(x % 0x1_0000_0000, 4)
  }

  /** BigInteger.longValue: the low 64 bits as a signed long. */
  function LongValue(n: int): (r: Long)
    ensures r % 0x1_0000_0000_0000_0000 == n % 0x1_0000_0000_0000_0000
  {
    ToSigned(n % 0x1_0000_0000_0000_0000, 8)
  }

  // ---- Writers ----

  /**
    Stores bytes 0..w-1 of n at off, off+1, ... in that order. Like the Java
    assignments it stops at the first index outside the array, keeping the
    bytes already written.
  */
  method PutLE(b: array<Byte>, n: int, off: int, w: nat) returns (r: Outcome<JavaException>)
    requires w >= 1
    modifies b
    ensures b[..] == Written(old(b[..]), n, off, w)
    ensures r.Pass? <==> 0 <= off && off + w <= b.Length
    ensures r.Fail? ==> r.error == IndexOutOfBounds
  {
    if off < 0 {
      assert Written(old(b[..]), n, off, w) == old(b[..]);
      return Fail(IndexOutOfBounds);
    }
    var k := 0;
    while k < w && off + k < b.Length
      invariant 0 <= k <= w
      invariant k == 0 || off + k <= b.Length
      invariant forall i :: 0 <= i < b.Length ==>
        b[i] == if off <= i < off + k then ByteAt(n, i - off) else old(b[i])
    {
      b[off + k] := ByteAt(n, k);
      k := k + 1;
    }
    if k == w {
      r := Pass;
    } else {
      r := Fail(IndexOutOfBounds);
    }
  }

  /** setShort */
  method SetShort(b: array<Byte>, n: Short, off: int) returns (r: Outcome<JavaException>)
    modifies b
    ensures b[..] == Written(old(b[..]), n, off, 2)
    ensures r.Pass? <==> 0 <= off && off + 2 <= b.Length
    ensures r.Fail? ==> r.error == IndexOutOfBounds
  {
    r := PutLE(b, n, off, 2);
  }

  /** setUnsignedShort: the low 16 bits of an int. */
  method SetUnsignedShort(b: array<Byte>, n: Int, off: int) returns (r: Outcome<JavaException>)
    modifies b
    ensures b[..] == Written(old(b[..]), n, off, 2)
    ensures r.Pass? <==> 0 <= off && off + 2 <= b.Length
    ensures r.Fail? ==> r.error == IndexOutOfBounds
  {
    r := PutLE(b, n, off, 2);
  }

  /** setInt */
  method SetInt(b: array<Byte>, n: Int, off: int) returns (r: Outcome<JavaException>)
    modifies b
    ensures b[..] == Written(old(b[..]), n, off, 4)
    ensures r.Pass? <==> 0 <= off && off + 4 <= b.Length
    ensures r.Fail? ==> r.error == IndexOutOfBounds
  {
    r := PutLE(b, n, off, 4);
  }

  /** setUnsignedInt: the low 32 bits of a long. */
  method SetUnsignedInt(b: array<Byte>, n: Long, off: int) returns (r: Outcome<JavaException>)
    modifies b
    ensures b[..] == Written(old(b[..]), n, off, 4)
    ensures r.Pass? <==> 0 <= off && off + 4 <= b.Length
    ensures r.Fail? ==> r.error == IndexOutOfBounds
  {
    r := PutLE(b, n, off, 4);
  }

  /** setLong */
  method SetLong(b: array<Byte>, n: Long, off: int) returns (r: Outcome<JavaException>)
    modifies b
    ensures b[..] == Written(old(b[..]), n, off, 8)
    ensures r.Pass? <==> 0 <= off && off + 8 <= b.Length
    ensures r.Fail? ==> r.error == IndexOutOfBounds
  {
    r := PutLE(b, n, off, 8);
  }

  /** setUnsignedLong: setLong of the BigInteger's longValue. */
  method SetUnsignedLong(b: array<Byte>, n: int, off: int) returns (r: Outcome<JavaException>)
    modifies b
    ensures b[..] == Written(old(b[..]), LongValue(n), off, 8)
    ensures r.Pass? <==> 0 <= off && off + 8 <= b.Length
    ensures r.Fail? ==> r.error == IndexOutOfBounds
  {
    r := SetLong(b, LongValue(n), off);
  }

  // ---- Round trips ----

  lemma ShortRoundTrip(s: seq<Byte>, n: Short, off: int)
    requires 0 <= off && off + 2 <= |s|
    ensures GetShort(Written(s, n, off, 2), off) == Ok(n)
  {
    ReadWritten(s, n, off, 2);
    SignedRoundTrip(n, 2);
  }

  lemma UnsignedShortRoundTrip(s: seq<Byte>, n: Int, off: int)
    requires 0 <= off && off + 2 <= |s|
    ensures GetUnsignedShort(Written(s, n, off, 2), off) == Ok(n % 0x1_0000)
  {
    ReadWritten(s, n, off, 2);
  }

  lemma IntRoundTrip(s: seq<Byte>, n: Int, off: int)
    requires 0 <= off && off + 4 <= |s|
    ensures GetInt(Written(s, n, off, 4), off) == Ok(n)
  {
    ReadWritten(s, n, off, 4);
    SignedRoundTrip(n, 4);
  }

  lemma UnsignedIntRoundTrip(s: seq<Byte>, n: Long, off: int)
    requires 0 <= off && off + 4 <= |s|
    ensures GetUnsignedInt(Written(s, n, off, 4), off) == Ok(n % 0x1_0000_0000)
  {
    ReadWritten(s, n, off, 4);
  }

  lemma LongRoundTrip(s: seq<Byte>, n: Long, off: int)
    requires 0 <= off && off + 8 <= |s|
    ensures GetLong(Written(s, n, off, 8), off) == Ok(n)
  {
    ReadWritten(s, n, off, 8);
    SignedRoundTrip(n, 8);
  }

  lemma UnsignedLongRoundTrip(s: seq<Byte>, n: int, off: int)
    requires 0 <= off && off + 8 <= |s|
    ensures GetUnsignedLong(Written(s, LongValue(n), off, 8), off) == Ok(n % 0x1_0000_0000_0000_0000)
  {
    ReadWritten(s, LongValue(n), off, 8);
  }
}
