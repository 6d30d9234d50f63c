/**
  Bytes.pretty(StringBuilder, byte[]) of the Java client: a byte array
  printed as a quoted string with \n, \t and \xHH escapes, or, when fewer
  than half of its bytes are printable ASCII, as Arrays.toString's list of
  signed decimals. The StringBuilder is a class whose text the methods update.
*/
module BytesPretty {
  import opened Wrappers
  import opened AsciiStrings
  import opened BytesCodec
  import opened BytesCompare

  /** java.lang.StringBuilder, as the text it holds. */
  class StringBuilder {
    var text: string

    constructor(init: string)
      ensures text == init
    {
      text := init;
    }

    method Append(s: string)
      modifies this
      ensures text == old(text) + s
    {
      text := text + s;
    }

    /** setLength: truncates, or pads with NUL characters. */
    method SetLength(n: nat)
      modifies this
      ensures n <= |old(text)| ==> text == old(text)[..n]
      ensures n > |old(text)| ==> text == old(text) + seq(n - |old(text)|, _ => '\0')
    {
      if n <= |text| {
        text := text[..n];
      } else {
        text := text + seq(n - |text|, _ => '\0');
      }
    }
  }

  /** HEX[d]: the upper-case hexadecimal digit for 0 <= d < 16. */
  function Hex(d: int): (c: char)
    requires 0 <= d < 16
    ensures '0' <= c <= '9' || 'A' <= c <= 'F'
  {
    if d < 10 then ('0' as int + d) as char else ('A' as int + d - 10) as char
  }

  predicate Printable(b: Byte)
  {
    ' ' as int <= b <= '~' as int
  }

  predicate PrintableChar(c: char)
  {
    ' ' <= c <= '~'
  }

  /** How pretty prints one byte: itself if printable, \n, \t, or \x and two upper-case hex digits. */
  function EscapeByte(b: Byte): (t: string)
    ensures 1 <= |t| <= 4
  {
    if Printable(b) then [b as char]
    else if b == '\n' as int then "\\n"
    else if b == '\t' as int then "\\t"
    // (b >>> 4) & 0x0F and b & 0x0F are the two nibbles of the unsigned byte.
    else "\\x" + [Hex(b / 16), Hex(b % 16)]
  }

  /** The images of the bytes of s under f, concatenated in order. */
  function ConcatMap(f: Byte -> string, s: seq<Byte>): string
  {
    if |s| == 0 then "" else ConcatMap(f, s[..|s| - 1]) + f(s[|s| - 1])
  }

  /** Concatenating images distributes over concatenation of the bytes. */
  lemma {:induction false} ConcatMapAppend(f: Byte -> string, a: seq<Byte>, b: seq<Byte>)
    ensures ConcatMap(f, a + b) == ConcatMap(f, a) + ConcatMap(f, b)
    decreases |b|
  {
    if |b| == 0 {
      assert a + b == a;
    } else {
      var init, last := b[..|b| - 1], b[|b| - 1];
      assert (a + b)[..|a + b| - 1] == a + init;
      ConcatMapAppend(f, a, init);
    }
  }

  /** The escaped bytes, in order. */
  function Escaped(s: seq<Byte>): string
  {
    ConcatMap(EscapeByte, s)
  }

  /** The number of printable ASCII bytes in s. */
  function AsciiCount(s: seq<Byte>): (n: nat)
    ensures n <= |s|
  {
    if |s| == 0 then 0 else AsciiCount(s[..|s| - 1]) + (if Printable(s[|s| - 1]) then 1 else 0)
  }

  /** Arrays.toString(byte[]): the signed values, comma-separated, in brackets. */
  function ArraysToString(s: seq<Byte>): string
  {
    "[" + Join(seq(|s|, i requires 0 <= i < |s| => IntToString(SignedByte(s[i]))), ", ") + "]"
  }

  /** What pretty appends for a possibly null array. */
  function PrettyText(a: Option<seq<Byte>>): string
  {
    match a
    case None => "null"
    case Some(s) =>
      if AsciiCount(s) < |s| / 2 then ArraysToString(s)
      else "\"" + Escaped(s) + "\""
  }

  /** pretty(outbuf, array) */
  method Pretty(outbuf: StringBuilder, bytes: array?<Byte>)
    modifies outbuf
    ensures outbuf.text == old(outbuf.text) + PrettyText(Contents(bytes))
  {
    if bytes == null {
      outbuf.Append("null");
    } else {
      PrettyNonNull(outbuf, bytes);
    }
  }

  /** pretty past its null check: the quoted form, replaced by Arrays.toString when mostly unprintable. */
  method PrettyNonNull(outbuf: StringBuilder, bytes: array<Byte>)
    modifies outbuf
    ensures outbuf.text == old(outbuf.text) + PrettyText(Some(bytes[..]))
  {
    ghost var base := outbuf.text;
    var startLength := |outbuf.text|;
    var n := bytes.Length;
    outbuf.Append("\"");
    var ascii := AppendAllEscaped(outbuf, bytes);
    if ascii < n / 2 {
      assert outbuf.text[..startLength] == base;
      outbuf.SetLength(startLength);
      outbuf.Append(ArraysToString(bytes[..]));
    } else {
      ghost var quoted := "\"" + Escaped(bytes[..]) + "\"";
      outbuf.Append("\"");
      assert outbuf.text == base + quoted;
    }
  }

  /** pretty's loop: appends every byte or its escape, counting the printable ones. */
  method AppendAllEscaped(outbuf: StringBuilder, bytes: array<Byte>) returns (ascii: nat)
    modifies outbuf
    ensures outbuf.text == old(outbuf.text) + Escaped(bytes[..])
    ensures ascii == AsciiCount(bytes[..])
  {
    ghost var prefix := outbuf.text;
    ghost var s := bytes[..];
    ascii := 0;
    for i := 0 to bytes.Length
      invariant outbuf.text == prefix + Escaped(s[..i])
      invariant ascii == AsciiCount(s[..i])
    {
      var b := bytes[i];
      if ' ' as int <= b <= '~' as int {
        ascii := ascii + 1;
      }
      ghost var done := Escaped(s[..i]);
      AppendEscaped(outbuf, b);
      assert Escaped(s[..i + 1]) == done + EscapeByte(b) && ascii == AsciiCount(s[..i + 1]) by {
        Snoc(s, i);
      }
      assert outbuf.text == prefix + (done + EscapeByte(b));
    }
    assert s[..|s|] == s;
  }

  lemma Snoc(s: seq<Byte>, i: int)
    requires 0 <= i < |s|
    ensures Escaped(s[..i + 1]) == Escaped(s[..i]) + EscapeByte(s[i])
    ensures AsciiCount(s[..i + 1]) == AsciiCount(s[..i]) + if Printable(s[i]) then 1 else 0
  {
    assert s[..i + 1][..i] == s[..i];
  }

  /** One step of pretty's loop: appends the byte itself or its escape. */
  method AppendEscaped(outbuf: StringBuilder, b: Byte)
    modifies outbuf
    ensures outbuf.text == old(outbuf.text) + EscapeByte(b)
  {
    if ' ' as int <= b <= '~' as int {
      outbuf.Append([b as char]);
    } else if b == '\n' as int {
      outbuf.Append("\\n");
    } else if b == '\t' as int {
      outbuf.Append("\\t");
    } else {
      outbuf.Append("\\x");
      outbuf.Append([Hex(b / 16)]);
      outbuf.Append([Hex(b % 16)]);
    }
  }

  /** Escaping distributes over concatenation. */
  lemma EscapedAppend(a: seq<Byte>, b: seq<Byte>)
    ensures Escaped(a + b) == Escaped(a) + Escaped(b)
  {
    ConcatMapAppend(EscapeByte, a, b);
  }

  /** Escaping distributes over a leading byte. */
  lemma EscapedCons(b: Byte, s: seq<Byte>)
    ensures Escaped([b] + s) == EscapeByte(b) + Escaped(s)
  {
    EscapedAppend([b], s);
    assert [b][..0] == [];
    assert Escaped([b]) == ConcatMap(EscapeByte, []) + EscapeByte(b);
  }

  /** Each escape is printable ASCII. */
  lemma EscapeBytePrintable(b: Byte)
    ensures forall i :: 0 <= i < |EscapeByte(b)| ==> PrintableChar(EscapeByte(b)[i])
  {
  }

  /** The escaped form is printable ASCII and between one and four characters per byte. */
  lemma {:induction false} EscapedShape(s: seq<Byte>)
    ensures |s| <= |Escaped(s)| <= 4 * |s|
    ensures forall i :: 0 <= i < |Escaped(s)| ==> PrintableChar(Escaped(s)[i])
  {
    if |s| > 0 {
      EscapedShape(s[..|s| - 1]);
      EscapeBytePrintable(s[|s| - 1]);
    }
  }

  /** An array of printable bytes is printed verbatim between quotes. */
  lemma {:induction false} PrettyVerbatim(s: seq<Byte>)
    requires forall i :: 0 <= i < |s| ==> Printable(s[i])
    ensures AsciiCount(s) == |s|
    ensures Escaped(s) == seq(|s|, i requires 0 <= i < |s| => s[i] as char)
    ensures PrettyText(Some(s)) == "\"" + seq(|s|, i requires 0 <= i < |s| => s[i] as char) + "\""
  {
    if |s| > 0 {
      PrettyVerbatim(s[..|s| - 1]);
    }
  }

  predicate IsHex(c: char)
  {
    '0' <= c <= '9' || 'A' <= c <= 'F'
  }

  function HexValue(c: char): int
    requires IsHex(c)
  {
    if c <= '9' then c as int - '0' as int else c as int - 'A' as int + 10
  }

  lemma HexDigits(d: int)
    requires 0 <= d < 16
    ensures IsHex(Hex(d)) && HexValue(Hex(d)) == d
  {
  }

  function Prepend(b: Byte, rest: Option<seq<Byte>>): Option<seq<Byte>>
  {
    if rest.Some? then Some([b] + rest.value) else None
  }

  /**
    Reads the escaped form back: \n, \t and \xHH become their bytes and any
    other printable character stands for itself; anything else is refused.
  */
  function Unescape(t: string): Option<seq<Byte>>
    decreases |t|
  {
    if |t| == 0 then Some([])
    else if t[0] == '\\' then
      if |t| >= 2 && t[1] == 'n' then Prepend('\n' as int, Unescape(t[2..]))
      else if |t| >= 2 && t[1] == 't' then Prepend('\t' as int, Unescape(t[2..]))
      else if |t| >= 4 && t[1] == 'x' && IsHex(t[2]) && IsHex(t[3]) then
        Prepend(16 * HexValue(t[2]) + HexValue(t[3]), Unescape(t[4..]))
      else None
    else if PrintableChar(t[0]) then Prepend(t[0] as int, Unescape(t[1..]))
    else None
  }

  lemma UnescapeByte(b: Byte, rest: string)
    requires b != '\\' as int
    ensures Unescape(EscapeByte(b) + rest) == Prepend(b, Unescape(rest))
  {
    var t := EscapeByte(b) + rest;
    if Printable(b) {
      assert t[1..] == rest;
    } else if b == '\n' as int || b == '\t' as int {
      assert t[2..] == rest;
    } else {
      HexDigits(b / 16);
      HexDigits(b % 16);
      assert t[4..] == rest;
    }
  }

  /** Without a backslash byte, the escaped form determines the bytes. */
  lemma {:induction false} UnescapeRoundTrip(s: seq<Byte>)
    requires forall i :: 0 <= i < |s| ==> s[i] != '\\' as int
    ensures Unescape(Escaped(s)) == Some(s)
    decreases |s|
  {
    if |s| > 0 {
      UnescapeRoundTrip(s[1..]);
      assert s == [s[0]] + s[1..];
      EscapedCons(s[0], s[1..]);
      UnescapeByte(s[0], Escaped(s[1..]));
    }
  }

  /** A backslash byte makes the printed form ambiguous: "\n" stands for [0x5C, 'n'] and for [0x0A]. */
  lemma PrettyAmbiguous()
    ensures PrettyText(Some([0x5C, 0x6E])) == PrettyText(Some([0x0A]))
  {
    assert [0x5C, 0x6E][..1] == [0x5C];
  }
}
