/**
  The Protocol Buffers "Base 128 Varint" writer and reader of the Java client's
  Bytes class, for 32-bit values. Each byte carries 7 bits of the value, least
  significant group first; the high bit (the continuation bit) is set on every
  byte but the last.

  PutVarInt32 models the writer as written, including its two-byte branch that
  sets the continuation bit on the last byte as well; PutVarInt32Fixed is the
  writer with that bit cleared, and it is the one whose round trip holds for
  every non-negative int.
*/
module BytesVarint {
  import opened Wrappers
  import opened AsciiStrings
  import opened BytesCodec

  const CONT: Byte := 0x80

  /** `b | 0x80`: the byte with its continuation (high) bit set. */
  function WithCont(b: Byte): (r: Byte)
    ensures r >= CONT && r % 0x80 == b % 0x80
  {
    if b >= CONT then b else b + CONT
  }

  /** putVarInt32 as written: the bytes appended to the buffer for v. */
  function PutVarInt32(v: Int): (out: seq<Byte>)
    ensures 1 <= |out| <= 5
  {
    if v < 0x80 then
      [ToByte(v)]
    else if v < 0x4000 then
      [WithCont(ToByte(v)), WithCont(ToByte(v / 0x80))]
    else if v < 0x20_0000 then
      [WithCont(ToByte(v)), WithCont(ToByte(v / 0x80)), ToByte(v / 0x4000)]
    else if v < 0x1000_0000 then
      [WithCont(ToByte(v)), WithCont(ToByte(v / 0x80)), WithCont(ToByte(v / 0x4000)), ToByte(v / 0x20_0000)]
    else
      [WithCont(ToByte(v)), WithCont(ToByte(v / 0x80)), WithCont(ToByte(v / 0x4000)),
       WithCont(ToByte(v / 0x20_0000)), ToByte(v / 0x1000_0000)]
  }

  /** The writer with the two-byte branch's last byte written without the continuation bit. */
  function PutVarInt32Fixed(v: Int): (out: seq<Byte>)
    ensures 1 <= |out| <= 5
  {
    if 0x80 <= v < 0x4000 then
      [WithCont(ToByte(v)), ToByte(v / 0x80)]
    else
      PutVarInt32(v)
  }

  /**
    readVarInt32 over the bytes remaining in the buffer: the value and the number
    of bytes consumed. Each step keeps the low groups read so far (`&` with a
    mask of ones is `%`) and adds the next sign-extended byte shifted into place
    (`|` of disjoint bit ranges is `+`); the fifth byte's shift wraps to 32 bits.
    Running out of bytes is Netty's IndexOutOfBoundsException; a fifth byte
    with its high bit set is an IllegalArgumentException.
  */
  function ReadVarInt32(s: seq<Byte>): (r: Result<(Int, nat), JavaException>)
    ensures r.Ok? ==> 1 <= r.value.1 <= 5 && r.value.1 <= |s|
    ensures r.Ok? ==> s[r.value.1 - 1] < CONT && forall i :: 0 <= i < r.value.1 - 1 ==> s[i] >= CONT
    ensures r == Err(IndexOutOfBounds) <==>
            |s| < 5 && forall i :: 0 <= i < |s| ==> s[i] >= CONT
  {
    if |s| < 1 then Err(IndexOutOfBounds)
    else
      var r0 := SignedByte(s[0]);
      if r0 >= 0 then Ok((r0, 1))
      else if |s| < 2 then Err(IndexOutOfBounds)
      else
        var r1 := Accumulate(r0, 0x80, s[1]);
        if r1 >= 0 then Ok((r1, 2))
        else if |s| < 3 then Err(IndexOutOfBounds)
        else
          var r2 := Accumulate(r1, 0x4000, s[2]);
          if r2 >= 0 then Ok((r2, 3))
          else if |s| < 4 then Err(IndexOutOfBounds)
          else
            var r3 := Accumulate(r2, 0x20_0000, s[3]);
            if r3 >= 0 then Ok((r3, 4))
            else if |s| < 5 then Err(IndexOutOfBounds)
            else
              var b := SignedByte(s[4]);
              var r4 := ToInt(Accumulate(r3, 0x1000_0000, s[4]));
              if b >= 0 then Ok((r4, 5))
              else Err(NotVarint32(r4, b))
  }

  /** The exception for a fifth byte with its high bit set, naming the value read and that byte. */
  function NotVarint32(result: int, fifth: int): (e: JavaException)
    ensures e.IllegalArgument?
  {
    IllegalArgument("Not a 32 bit varint: " + IntToString(result) + " (5th byte: " + IntToString(fifth) + ")")
  }

  /**
    One step of the reader: `(acc & (p - 1)) | (b << k)` for p = 2^k, where b is
    sign-extended. It is negative exactly when b has its high bit set.
  */
  function Accumulate(acc: int, p: int, b: Byte): (r: int)
    requires p >= 1
    ensures r >= 0 <==> b < CONT
    ensures -0x80 * p <= r < 0x80 * p
  {
    var c := SignedByte(b);
    assert (c >= 0 ==> 0 <= c * p <= 0x7F * p) && (c < 0 ==> -0x80 * p <= c * p <= -p) by {
      if c >= 0 {
        MulMono(0, c, p);
        MulMono(c, 0x7F, p);
      } else {
        MulMono(-0x80, c, p);
        MulMono(c, -1, p);
      }
    }
    acc % p + c * p
  }

  lemma MulMono(a: int, b: int, p: int)
    requires a <= b && p >= 0
    ensures a * p <= b * p
  {
    assert b * p - a * p == (b - a) * p;
  }

  // ---- Arithmetic of one group ----

  /** A byte written with the continuation bit sign-extends to the group minus 128. */
  lemma ContinuationByte(x: int)
    ensures SignedByte(WithCont(ToByte(x))) == x % 0x80 - 0x80
  {
    DivModSplit(x, 0x80, 2);
    DivModUnique(x % 256, 0x80, (x / 0x80) % 2, x % 0x80);
  }

  /** The first byte of a multi-byte varint: negative, holding the lowest group. */
  lemma FirstStep(v: int)
    ensures SignedByte(WithCont(ToByte(v))) < 0
    ensures SignedByte(WithCont(ToByte(v))) % 0x80 == v % 0x80
  {
    ContinuationByte(v);
    DivModUnique(v % 0x80 - 0x80, 0x80, -1, v % 0x80);
  }

  lemma LastByte(x: int)
    requires 0 <= x < 0x80
    ensures SignedByte(ToByte(x)) == x
  {
  }

  /**
    Reading a group written with the continuation bit, on top of an accumulator
    that agrees with v below p, leaves a negative accumulator that agrees with v
    below 128 * p.
  */
  lemma ContinuationStep(v: int, p: int, acc: int)
    requires p >= 1
    requires acc % p == v % p
    ensures Accumulate(acc, p, WithCont(ToByte(v / p))) < 0
    ensures Accumulate(acc, p, WithCont(ToByte(v / p))) % (p * 0x80) == v % (p * 0x80)
  {
    var q := v / p;
    var c := SignedByte(WithCont(ToByte(q)));
    ContinuationByte(q);
    var g := q % 0x80;
    var m := p * 0x80;
    SplitLowGroups(v, p);
    Distribute(g, p);
    var next := Accumulate(acc, p, WithCont(ToByte(q)));
    assert next == v % m - m;
    DivModUnique(next, m, -1, v % m);
  }

  lemma SplitLowGroups(v: int, p: int)
    requires p >= 1
    ensures v % (p * 0x80) == v % p + p * ((v / p) % 0x80)
    ensures 0 <= v % (p * 0x80) < p * 0x80
  {
    DivModSplit(v, p, 0x80);
  }

  lemma Distribute(g: int, p: int)
    ensures (g - 0x80) * p == p * g - p * 0x80
  {
  }

  /** Reading the last group, without the continuation bit, completes the value. */
  lemma FinalStep(v: int, p: int, acc: int)
    requires p >= 1 && 0 <= v < p * 0x80
    requires acc % p == v % p
    ensures Accumulate(acc, p, ToByte(v / p)) == v
  {
    var q := v / p;
    QuotientBelow(v, p);
    var b := ToByte(q);
    var c := SignedByte(b);
    LastByte(q);
    assert Accumulate(acc, p, b) == acc % p + c * p;
    Combine(v, p, q, acc, c);
  }

  lemma Combine(v: int, p: int, q: int, acc: int, c: int)
    requires p >= 1 && q == v / p && c == q && acc % p == v % p
    ensures acc % p + c * p == v
  {
    DivModIdentity(v, p);
    assert c * p == p * q;
  }

  lemma DivModIdentity(v: int, p: int)
    requires p >= 1
    ensures v == p * (v / p) + v % p
  {
  }

  lemma QuotientBelow(v: int, p: int)
    requires p >= 1 && 0 <= v < p * 0x80
    ensures 0 <= v / p < 0x80
  {
    DivModSplit(v, p, 0x80);
    DivModUnique(v, p * 0x80, 0, v);
  }

  lemma RoundTripTwo(v: Int, s: seq<Byte>)
    requires 0x80 <= v < 0x4000
    requires |s| >= 2 && s[0] == WithCont(ToByte(v)) && s[1] == ToByte(v / 0x80)
    ensures ReadVarInt32(s) == Ok((v, 2))
  {
    var r0 := SignedByte(s[0]);
    FirstStep(v);
    assert Accumulate(r0, 0x80, s[1]) == v by { FinalStep(v, 0x80, r0); }
  }

  lemma RoundTripThree(v: Int, s: seq<Byte>)
    requires 0x4000 <= v < 0x20_0000
    requires |s| >= 3 && s[0] == WithCont(ToByte(v)) && s[1] == WithCont(ToByte(v / 0x80))
    requires s[2] == ToByte(v / 0x4000)
    ensures ReadVarInt32(s) == Ok((v, 3))
  {
    var r0 := SignedByte(s[0]);
    FirstStep(v);
    var r1 := Accumulate(r0, 0x80, s[1]);
    assert r1 < 0 && r1 % 0x4000 == v % 0x4000 by { ContinuationStep(v, 0x80, r0); }
    assert Accumulate(r1, 0x4000, s[2]) == v by { FinalStep(v, 0x4000, r1); }
  }

  /** How the reader gets through four bytes: three continuation bytes, then a last one. */
  lemma ReadsFour(s: seq<Byte>, r0: int, r1: int, r2: int, r3: int)
    requires |s| >= 4 && r0 == SignedByte(s[0]) && r0 < 0
    requires r1 == Accumulate(r0, 0x80, s[1]) && r1 < 0
    requires r2 == Accumulate(r1, 0x4000, s[2]) && r2 < 0
    requires r3 == Accumulate(r2, 0x20_0000, s[3]) && r3 >= 0
    ensures ReadVarInt32(s).Ok? && ReadVarInt32(s).value == (r3, 4)
  {
  }

  /** How the reader gets through five bytes. */
  lemma ReadsFive(s: seq<Byte>, r0: int, r1: int, r2: int, r3: int)
    requires |s| >= 5 && r0 == SignedByte(s[0]) && r0 < 0
    requires r1 == Accumulate(r0, 0x80, s[1]) && r1 < 0
    requires r2 == Accumulate(r1, 0x4000, s[2]) && r2 < 0
    requires r3 == Accumulate(r2, 0x20_0000, s[3]) && r3 < 0
    requires SignedByte(s[4]) >= 0
    ensures ReadVarInt32(s) == Ok((ToInt(Accumulate(r3, 0x1000_0000, s[4])), 5))
  {
  }

  /** The accumulator after the first three groups of a value of at least 2^21. */
  lemma ThreeContinuations(v: Int, s: seq<Byte>) returns (r0: int, r1: int, r2: int)
    requires 0x20_0000 <= v
    requires |s| >= 3 && s[0] == WithCont(ToByte(v)) && s[1] == WithCont(ToByte(v / 0x80))
    requires s[2] == WithCont(ToByte(v / 0x4000))
    ensures r0 == SignedByte(s[0]) && r0 < 0
    ensures r1 == Accumulate(r0, 0x80, s[1]) && r1 < 0
    ensures r2 == Accumulate(r1, 0x4000, s[2]) && r2 < 0 && r2 % 0x20_0000 == v % 0x20_0000
  {
    r0 := SignedByte(s[0]);
    FirstStep(v);
    r1 := Accumulate(r0, 0x80, s[1]);
    ContinuationStep(v, 0x80, r0);
    r2 := Accumulate(r1, 0x4000, s[2]);
    ContinuationStep(v, 0x4000, r1);
  }

  lemma RoundTripFour(v: Int, s: seq<Byte>)
    requires 0x20_0000 <= v < 0x1000_0000
    requires |s| >= 4 && s[0] == WithCont(ToByte(v)) && s[1] == WithCont(ToByte(v / 0x80))
    requires s[2] == WithCont(ToByte(v / 0x4000)) && s[3] == ToByte(v / 0x20_0000)
    ensures ReadVarInt32(s) == Ok((v, 4))
  {
    var r0, r1, r2 := ThreeContinuations(v, s);
    FinalStep(v, 0x20_0000, r2);
    ReadsFour(s, r0, r1, r2, v);
  }

  lemma RoundTripFive(v: Int, s: seq<Byte>)
    requires 0x1000_0000 <= v
    requires |s| >= 5 && s[0] == WithCont(ToByte(v)) && s[1] == WithCont(ToByte(v / 0x80))
    requires s[2] == WithCont(ToByte(v / 0x4000)) && s[3] == WithCont(ToByte(v / 0x20_0000))
    requires s[4] == ToByte(v / 0x1000_0000)
    ensures ReadVarInt32(s) == Ok((v, 5))
  {
    var r0, r1, r2 := ThreeContinuations(v, s);
    var r3 := Accumulate(r2, 0x20_0000, s[3]);
    ContinuationStep(v, 0x20_0000, r2);
    FifthGroup(v, r3, s[4]);
    ReadsFive(s, r0, r1, r2, r3);
    FitsInt(v);
  }

  lemma FifthGroup(v: Int, r3: int, b: Byte)
    requires 0x1000_0000 <= v && b == ToByte(v / 0x1000_0000)
    requires r3 % 0x1000_0000 == v % 0x1000_0000
    ensures SignedByte(b) >= 0
    ensures Accumulate(r3, 0x1000_0000, b) == v
  {
    QuotientBelow(v / 0x1000_0000, 0x80);
    LastByte(v / 0x1000_0000);
    FinalStep(v, 0x1000_0000, r3);
  }

  lemma FitsInt(v: Int)
    ensures ToInt(v) == v
  {
    DivModUnique(v, 0x1_0000_0000, if v < 0 then -1 else 0, if v < 0 then v + 0x1_0000_0000 else v);
    Pow256Values();
    SignedRoundTrip(v, 4);
  }

  /** The corrected writer's bytes are read back as v, whatever follows them. */
  lemma VarIntRoundTrip(v: Int, rest: seq<Byte>)
    requires v >= 0
    ensures ReadVarInt32(PutVarInt32Fixed(v) + rest) == Ok((v, |PutVarInt32Fixed(v)|))
  {
    var s := PutVarInt32Fixed(v) + rest;
    if v < 0x80 {
      LastByte(v);
    } else if v < 0x4000 {
      RoundTripTwo(v, s);
    } else if v < 0x20_0000 {
      RoundTripThree(v, s);
    } else if v < 0x1000_0000 {
      RoundTripFour(v, s);
    } else {
      RoundTripFive(v, s);
    }
  }

  /** The writer as written reads back correctly outside [2^7, 2^14), negative values excepted. */
  lemma PutVarInt32RoundTrip(v: Int, rest: seq<Byte>)
    requires 0 <= v < 0x80 || 0x4000 <= v
    ensures ReadVarInt32(PutVarInt32(v) + rest) == Ok((v, |PutVarInt32(v)|))
  {
    VarIntRoundTrip(v, rest);
  }

  /**
    In [2^7, 2^14) the writer as written emits two bytes that both carry the
    continuation bit, so the reader never stops after them: on their own they
    are a truncated varint, and followed by more bytes they are not read as v
    in two bytes.
  */
  lemma PutVarInt32TwoByteBranch(v: Int, rest: seq<Byte>)
    requires 0x80 <= v < 0x4000
    ensures |PutVarInt32(v)| == 2
    ensures PutVarInt32(v)[0] >= CONT && PutVarInt32(v)[1] >= CONT
    ensures ReadVarInt32(PutVarInt32(v)) == Err(IndexOutOfBounds)
    ensures ReadVarInt32(PutVarInt32(v) + rest) != Ok((v, 2))
  {
    var b := PutVarInt32(v);
    assert WithCont(ToByte(v)) >= CONT && WithCont(ToByte(v / 0x80)) >= CONT;
    var s := b + rest;
    var r := ReadVarInt32(s);
    if r.Ok? {
      assert s[0] >= CONT && s[1] >= CONT;
      assert r.value.1 > 2;
    }
  }

  /** The smallest value the writer as written gets wrong: 300 is written as 0xAC 0x82. */
  lemma PutVarInt32Counterexample()
    ensures PutVarInt32(300) == [0xAC, 0x82]
    ensures PutVarInt32Fixed(300) == [0xAC, 0x02]
    ensures ReadVarInt32(PutVarInt32(300)) == Err(IndexOutOfBounds)
    ensures ReadVarInt32(PutVarInt32Fixed(300)) == Ok((300, 2))
  {
    PutVarInt32TwoByteBranch(300, []);
    VarIntRoundTrip(300, []);
    assert PutVarInt32Fixed(300) + [] == PutVarInt32Fixed(300);
  }

  /** A negative int is written as its low byte alone, which does not read back as v. */
  lemma PutVarInt32Negative(v: Int)
    requires v < 0
    ensures PutVarInt32(v) == [ToByte(v)]
    ensures ReadVarInt32(PutVarInt32(v)) != Ok((v, 1))
  {
  }

  /**
    The corrected writer uses the fewest bytes that hold v, 7 bits per byte:
    v needs more than k - 1 groups and fits in k.
  */
  lemma PutVarInt32FixedLength(v: Int)
    requires v >= 0
    ensures var k := |PutVarInt32Fixed(v)|;
            (k == 1 || v >= Pow128(k - 1)) && (k == 5 || v < Pow128(k))
  {
    assert Pow128(1) == 0x80 && Pow128(2) == 0x4000 && Pow128(3) == 0x20_0000;
    assert Pow128(4) == 0x1000_0000;
  }

  /** 128^k, the number of values k groups of 7 bits hold. */
  function Pow128(k: nat): (r: nat)
    ensures r >= 1
  {
    if k == 0 then 1 else 128 * Pow128(k - 1)
  }

  /** Every byte but the last of the corrected writer's output carries the continuation bit. */
  lemma PutVarInt32FixedShape(v: Int)
    requires v >= 0
    ensures var out := PutVarInt32Fixed(v);
            out[|out| - 1] < CONT && forall i :: 0 <= i < |out| - 1 ==> out[i] >= CONT
  {
    VarIntRoundTrip(v, []);
    assert PutVarInt32Fixed(v) + [] == PutVarInt32Fixed(v);
  }

  /** A fifth byte with its high bit set is rejected with IllegalArgumentException. */
  lemma ReadVarInt32FifthByte(s: seq<Byte>)
    requires |s| >= 5 && forall i :: 0 <= i < 4 ==> s[i] >= CONT
    ensures ReadVarInt32(s).Err? <==> s[4] >= CONT
    ensures ReadVarInt32(s).Err? ==> ReadVarInt32(s).error.IllegalArgument?
  {
    var r := ReadVarInt32(s);
    if r.Ok? {
      assert r.value.1 == 5;
    } else {
      assert r != Err(IndexOutOfBounds);
    }
  }
}
