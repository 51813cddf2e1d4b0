/** Writing string literals, and reading back what was written. */
module StringCodec {
  import opened Bytes
  import opened Utf8
  import opened JsonStrings

  function HexDigit(d: nat, upper: bool): (c: byte)
    requires d < 16
    ensures HexCharToInt(c) == d && c != 0
  {
    if d < 10 then 0x30 + d else if upper then 0x41 + d - 10 else 0x61 + d - 10
  }

  // ---- The serializer's strings ---------------------------------------------

  /** The text of one byte inside a literal. */
  function EscapeByte(b: byte, slashes: bool): (t: seq<byte>)
    ensures |t| > 0
  {
    if b == QUOTE || b == BACKSLASH then [BACKSLASH, b]
    else if b == 0x08 then [BACKSLASH, 0x62]
    else if b == 0x0C then [BACKSLASH, 0x66]
    else if b == 0x0A then [BACKSLASH, 0x6E]
    else if b == 0x0D then [BACKSLASH, 0x72]
    else if b == 0x09 then [BACKSLASH, 0x74]
    else if b < 0x20 then [BACKSLASH, LOWER_U, 0x30, 0x30, HexDigit(b / 16, false), HexDigit(b % 16, false)]
    else if b == SLASH && slashes then [BACKSLASH, SLASH]
    else [b]
  }

  function EscapeAll(s: seq<byte>, slashes: bool): seq<byte> {
    if |s| == 0 then [] else EscapeByte(s[0], slashes) + EscapeAll(s[1..], slashes)
  }

  function Quote(s: seq<byte>, slashes: bool): (t: seq<byte>)
    ensures |t| >= 2 && t[0] == QUOTE
  {
    [QUOTE] + EscapeAll(s, slashes) + [QUOTE]
  }

  /** The grammar's unit that the serializer writes for a byte. */
  function UnitOf(b: byte, slashes: bool): (u: GoodUnit)
    ensures UnitText(u) == EscapeByte(b, slashes) && UnitBytes(u) == [b]
  {
    var t := EscapeByte(b, slashes);
    if |t| == 1 then Plain(b)
    else if |t| == 2 then Escape(t[1])
    else
      assert Utf16Hex(t[2..]) == Some(b);
      Code(t[2..])
  }

  function UnitsOf(s: seq<byte>, slashes: bool): (us: seq<GoodUnit>)
    ensures Text(us) == EscapeAll(s, slashes) && Meaning(us) == s
  {
    if |s| == 0 then []
    else
      TextCons(UnitOf(s[0], slashes), UnitsOf(s[1..], slashes));
      [UnitOf(s[0], slashes)] + UnitsOf(s[1..], slashes)
  }

  /** No text that means a byte is shorter than the one written for it, except that a slash may be escaped. */
  lemma EscapeShortest(b: byte, slashes: bool, u: GoodUnit)
    requires UnitBytes(u) == [b]
    ensures slashes && b == SLASH ==> EscapeByte(b, slashes) == [BACKSLASH, SLASH]
    ensures !(slashes && b == SLASH) ==> |EscapeByte(b, slashes)| <= |UnitText(u)|
  {
    EscapeTable(if u.Escape? then u.c else 0);
  }

  lemma HexDigitIs(d: nat, upper: bool)
    requires d < 16
    ensures HexDigit(d, upper) == if upper then HEX_UPPER[d] else HEX_LOWER[d]
  {
  }

  /** Numeric escapes have lower-case digits. */
  lemma EscapeDigits(b: byte, slashes: bool)
    requires |EscapeByte(b, slashes)| > 2
    ensures EscapeByte(b, slashes) == [0x5C, 0x75, 0x30, 0x30, HEX_LOWER[b / 16], HEX_LOWER[b % 16]]
  {
    HexDigitIs(b / 16, false);
    HexDigitIs(b % 16, false);
  }

  /** A literal of the grammar is read to its meaning, and the reading stops right behind it. */
  lemma LiteralRead(us: seq<GoodUnit>, rest: seq<byte>)
    ensures QuotedString([QUOTE] + Text(us) + [QUOTE] + rest) == Some((Meaning(us), rest))
  {
    QuotesThen([QUOTE] + Text(us) + [QUOTE], Text(us), rest);
    SkipComplete(us, rest);
    DecodeComplete(us, rest);
  }

  lemma QuotesThen(t: seq<byte>, body: seq<byte>, rest: seq<byte>)
    requires t == [QUOTE] + body + [QUOTE]
    ensures (t + rest)[1..] == body + [QUOTE] + rest && (t + rest)[|body| + 2..] == rest
  {
  }

  /** Every byte sequence is read back exactly, and the reading stops right after the literal. */
  lemma QuoteRoundTrip(s: seq<byte>, slashes: bool, rest: seq<byte>)
    ensures QuotedString(Quote(s, slashes) + rest) == Some((s, rest))
  {
    LiteralRead(UnitsOf(s, slashes), rest);
  }

  /** Literals of different byte sequences differ. */
  lemma QuoteInjective(s1: seq<byte>, s2: seq<byte>, slashes: bool)
    requires Quote(s1, slashes) == Quote(s2, slashes)
    ensures s1 == s2
  {
    QuoteRoundTrip(s1, slashes, []);
    QuoteRoundTrip(s2, slashes, []);
  }

  /** The text of a literal is a C string, even for bytes that are not. */
  lemma {:induction false} EscapeNulFree(s: seq<byte>, slashes: bool)
    ensures NulFree(EscapeAll(s, slashes)) && NulFree(Quote(s, slashes))
  {
    if |s| > 0 {
      EscapeNulFree(s[1..], slashes);
    }
  }

  // ---- Scalar values as \u escapes ------------------------------------------

  function Hex4(x: nat, upper: bool): (h: seq<byte>)
    requires x < 0x10000
    ensures |h| == 4 && Utf16Hex(h) == Some(x)
  {
    HexPlaces(x);
    [HexDigit(x / 4096, upper), HexDigit(x / 256 % 16, upper), HexDigit(x / 16 % 16, upper), HexDigit(x % 16, upper)]
  }

  /** One escape, or the surrogate pair of section 2.1 of RFC 2781. */
  function ScalarUnit(cp: Scalar, upper: bool): (u: GoodUnit)
    ensures UnitBytes(u) == Encode(cp)
  {
    if cp < 0x10000 then Code(Hex4(cp, upper))
    else Pair(Hex4(0xD800 + (cp - 0x10000) / 0x400, upper), Hex4(0xDC00 + (cp - 0x10000) % 0x400, upper))
  }

  function ScalarUnits(cps: seq<Scalar>, upper: bool): (us: seq<GoodUnit>)
    ensures Meaning(us) == EncodeAll(cps)
  {
    if |cps| == 0 then []
    else
      TextCons(ScalarUnit(cps[0], upper), ScalarUnits(cps[1..], upper));
      [ScalarUnit(cps[0], upper)] + ScalarUnits(cps[1..], upper)
  }

  /** Scalar values written as escapes decode to their UTF-8 encoding, which is valid UTF-8. */
  lemma ScalarsDecode(cps: seq<Scalar>, upper: bool, rest: seq<byte>)
    ensures QuotedString([QUOTE] + Text(ScalarUnits(cps, upper)) + [QUOTE] + rest) == Some((EncodeAll(cps), rest))
    ensures Utf8Text(EncodeAll(cps))
  {
    LiteralRead(ScalarUnits(cps, upper), rest);
  }

  // ---- What the decoder refuses ---------------------------------------------

  /** A place where no unit fits makes the whole literal fail, however good the text before it. */
  lemma DecodeFails(us: seq<GoodUnit>, x: seq<byte>, n: int)
    requires |x| > 0 && x[0] != 0 && DecodeOne(x).None? && n > |Text(us)|
    ensures Decode(Text(us) + x, n).None?
  {
    TextContributes(us);
  }

  /** A text that continues with the escape of a trail surrogate. */
  predicate TrailFollows(t: seq<byte>) {
    && |t| >= 6 && t[0] == BACKSLASH && t[1] == LOWER_U
    && Utf16Hex(t[2..]).Some? && 0xDC00 <= Utf16Hex(t[2..]).value <= 0xDFFF
  }

  /** A surrogate that is not a lead followed by a trail makes the literal fail. */
  lemma LoneSurrogateFails(us: seq<GoodUnit>, h: seq<byte>, tail: seq<byte>, n: int)
    requires |h| == 4 && Utf16Hex(h).Some? && 0xD800 <= Utf16Hex(h).value <= 0xDFFF
    requires Utf16Hex(h).value <= 0xDBFF ==> !TrailFollows(tail)
    requires n > |Text(us)|
    ensures Decode(Text(us) + ([BACKSLASH, LOWER_U] + h + tail), n).None?
  {
    var x := [BACKSLASH, LOWER_U] + h + tail;
    assert x[2..] == h + tail;
    assert Utf16Hex(h + tail) == Utf16Hex(h);
    assert (h + tail)[4..] == tail;
    if |tail| >= 2 {
      assert (h + tail)[6..] == tail[2..];
    }
    DecodeFails(us, x, n);
  }
}
