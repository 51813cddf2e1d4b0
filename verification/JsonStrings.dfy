/**
 * JSON string literals: the scanner that finds the closing quote, the decoder, and the
 * encoder of the serializer.  All three are related through the grammar of section 7 of
 * RFC 8259, given here as a list of units with a text and a meaning.
 */
module JsonStrings {
  import opened Bytes
  import opened Utf8

  const SLASH: byte := 0x2F

  // ---- Hexadecimal escapes --------------------------------------------------

  function HexCharToInt(c: byte): (v: int)
    ensures -1 <= v < 16
  {
    if 0x30 <= c <= 0x39 then c - 0x30
    else if 0x61 <= c <= 0x66 then c - 0x61 + 10
    else if 0x41 <= c <= 0x46 then c - 0x41 + 10
    else -1
  }

  predicate IsHex(c: byte) { HexCharToInt(c) != -1 }

  /** Four hexadecimal digits at the cursor; never looks beyond the terminator. */
  function Utf16Hex(t: seq<byte>): (r: Option<nat>)
    ensures r.Some? <==> |t| >= 4 && IsHex(t[0]) && IsHex(t[1]) && IsHex(t[2]) && IsHex(t[3])
    ensures r.Some? ==> r.value < 0x10000
  {
    if At(t, 0) == 0 || At(t, 1) == 0 || At(t, 2) == 0 || At(t, 3) == 0 then None
    else
      var x1, x2, x3, x4 :=
        HexCharToInt(At(t, 0)), HexCharToInt(At(t, 1)), HexCharToInt(At(t, 2)), HexCharToInt(At(t, 3));
      if x1 == -1 || x2 == -1 || x3 == -1 || x4 == -1 then None
      else Some(x1 * 4096 + x2 * 256 + x3 * 16 + x4)
  }

  function Combine(lead: nat, trail: nat): (cp: Scalar)
    requires 0xD800 <= lead <= 0xDBFF && 0xDC00 <= trail <= 0xDFFF
    ensures cp >= 0x10000
  {
    (lead - 0xD800) * 0x400 + (trail - 0xDC00) + 0x10000
  }

  /** The bytes that a `\u` escape stands for, and how much of the text after the `u` it takes. */
  function Utf16(t: seq<byte>): (r: Option<(seq<byte>, nat)>)
    ensures r.Some? ==> r.value.1 <= |t| && |r.value.0| <= r.value.1
  {
    match Utf16Hex(t)
    case None => None
    case Some(cp) =>
      if cp < 0xD800 || cp > 0xDFFF then Some((Encode(cp), 4))
      else if cp > 0xDBFF then None
      else if At(t, 4) != BACKSLASH || At(t, 5) != LOWER_U then None
      else
        match Utf16Hex(t[6..])
        case None => None
        case Some(trail) =>
          if trail < 0xDC00 || trail > 0xDFFF then None else Some((Encode(Combine(cp, trail)), 10))
  }

  // ---- Scanner and decoder --------------------------------------------------

  /** How far the closing quote is from a cursor inside a literal. */
  function SkipBody(t: seq<byte>): (r: Option<nat>)
    ensures r.Some? ==> r.value < |t| && t[r.value] == QUOTE
    decreases |t|
  {
    if Head(t) == QUOTE then Some(0)
    else if Head(t) == 0 then None
    else if t[0] == BACKSLASH then
      if Head(t[1..]) == 0 then None
      else
        match SkipBody(t[2..])
        case None => None
        case Some(n) => Some(n + 2)
    else
      match SkipBody(t[1..])
      case None => None
      case Some(n) => Some(n + 1)
  }

  /** The byte that a two-character escape stands for. */
  function SimpleEscape(c: byte): (r: Option<byte>) {
    if c == QUOTE || c == BACKSLASH || c == SLASH then Some(c)
    else if c == 0x62 then Some(0x08)
    else if c == 0x66 then Some(0x0C)
    else if c == 0x6E then Some(0x0A)
    else if c == 0x72 then Some(0x0D)
    else if c == 0x74 then Some(0x09)
    else None
  }

  /** The first element of a literal's body: its bytes and the length of its text. */
  function DecodeOne(t: seq<byte>): (r: Option<(seq<byte>, nat)>)
    requires |t| > 0
    ensures r.Some? ==> 1 <= r.value.1 <= |t| && |r.value.0| <= r.value.1
  {
    if t[0] == BACKSLASH then
      var c := At(t, 1);
      if c == LOWER_U then
        match Utf16(t[2..])
        case None => None
        case Some((bytes, n)) => Some((bytes, n + 2))
      else
        match SimpleEscape(c)
        case None => None
        case Some(b) => Some(([b], 2))
    else if t[0] < 0x20 then None
    else Some(([t[0]], 1))
  }

  /** The decoder's loop, `n` bytes before the end of the body. */
  function Decode(t: seq<byte>, n: int): (r: Option<seq<byte>>)
    decreases |t|
  {
    if Head(t) == 0 || n <= 0 then Some([])
    else
      match DecodeOne(t)
      case None => None
      case Some((bytes, k)) => Prepend(bytes, Decode(t[k..], n - k))
  }

  /** The contents of the literal at the cursor, and the text after its closing quote. */
  function QuotedString(t: seq<byte>): (r: Option<(seq<byte>, seq<byte>)>)
    ensures r.Some? ==> |r.value.1| < |t| && r.value.1 == t[|t| - |r.value.1|..]
  {
    if Head(t) != QUOTE then None
    else
      match SkipBody(t[1..])
      case None => None
      case Some(n) =>
        match Decode(t[1..], n)
        case None => None
        case Some(out) => Some((out, t[n + 2..]))
  }

  // ---- The grammar ----------------------------------------------------------

  /** The letters behind a backslash and the bytes that they stand for, section 7 of RFC 8259. */
  const ESCAPES: map<byte, byte> := map[
    0x22 := 0x22, 0x5C := 0x5C, 0x2F := 0x2F, 0x62 := 0x08, 0x66 := 0x0C, 0x6E := 0x0A, 0x72 := 0x0D, 0x74 := 0x09]

  datatype Unit =
    | Plain(b: byte)
    | Escape(c: byte)
    | Code(hex: seq<byte>)
    | Pair(lead: seq<byte>, trail: seq<byte>)

  predicate UnitOk(u: Unit) {
    match u
    case Plain(b) => b >= 0x20 && b != QUOTE && b != BACKSLASH
    case Escape(c) => c in ESCAPES
    case Code(h) => |h| == 4 && Utf16Hex(h).Some? && !(0xD800 <= Utf16Hex(h).value <= 0xDFFF)
    case Pair(l, t) =>
      && |l| == 4 && Utf16Hex(l).Some? && 0xD800 <= Utf16Hex(l).value <= 0xDBFF
      && |t| == 4 && Utf16Hex(t).Some? && 0xDC00 <= Utf16Hex(t).value <= 0xDFFF
  }

  type GoodUnit = u: Unit | UnitOk(u) witness Plain(0x20)

  function UnitText(u: GoodUnit): (t: seq<byte>)
    ensures |t| > 0
  {
    match u
    case Plain(b) => [b]
    case Escape(c) => [BACKSLASH, c]
    case Code(h) => [BACKSLASH, LOWER_U] + h
    case Pair(l, t) => [BACKSLASH, LOWER_U] + l + [BACKSLASH, LOWER_U] + t
  }

  function UnitBytes(u: GoodUnit): seq<byte> {
    match u
    case Plain(b) => [b]
    case Escape(c) => [ESCAPES[c]]
    case Code(h) => Encode(Utf16Hex(h).value)
    case Pair(l, t) => Encode(Combine(Utf16Hex(l).value, Utf16Hex(t).value))
  }

  function Text(us: seq<GoodUnit>): seq<byte> {
    if |us| == 0 then [] else UnitText(us[0]) + Text(us[1..])
  }

  function Meaning(us: seq<GoodUnit>): seq<byte> {
    if |us| == 0 then [] else UnitBytes(us[0]) + Meaning(us[1..])
  }

  lemma EscapeTable(c: byte)
    ensures SimpleEscape(c) == if c in ESCAPES then Some(ESCAPES[c]) else None
  {
  }

  const HEX_LOWER: seq<byte> :=
    [0x30, 0x31, 0x32, 0x33, 0x34, 0x35, 0x36, 0x37, 0x38, 0x39, 0x61, 0x62, 0x63, 0x64, 0x65, 0x66]
  const HEX_UPPER: seq<byte> :=
    [0x30, 0x31, 0x32, 0x33, 0x34, 0x35, 0x36, 0x37, 0x38, 0x39, 0x41, 0x42, 0x43, 0x44, 0x45, 0x46]

  /** `c` is the digit of the value `d`, in either case. */
  ghost predicate DigitOf(c: byte, d: nat) {
    d < 16 && (c == HEX_LOWER[d] || c == HEX_UPPER[d])
  }

  lemma DigitExactly(c: byte, d: nat)
    ensures HexCharToInt(c) == d <==> DigitOf(c, d)
  {
  }

  /** The four digits of a number, in any mixture of cases. */
  ghost predicate DigitsOf(h: seq<byte>, x: nat) {
    && |h| == 4 && x < 0x10000 && DigitOf(h[0], x / 4096) && DigitOf(h[1], x / 256 % 16)
    && DigitOf(h[2], x / 16 % 16) && DigitOf(h[3], x % 16)
  }

  lemma HexPlaces(x: nat)
    ensures x == x / 4096 * 4096 + x / 256 % 16 * 256 + x / 16 % 16 * 16 + x % 16
  {
    var y, z, w := x / 16, x / 256, x / 4096;
    assert y / 16 == z && z / 16 == w;
  }

  lemma Places(a: nat, b: nat, c: nat, d: nat)
    requires b < 16 && c < 16 && d < 16
    ensures var x := a * 4096 + b * 256 + c * 16 + d;
      x / 4096 == a && x / 256 % 16 == b && x / 16 % 16 == c && x % 16 == d
  {
    var x, y := a * 4096 + b * 256 + c * 16 + d, a * 256 + b * 16 + c;
    assert x / 16 == y && y / 16 == a * 16 + b;
    assert x / 256 == y / 16 && x / 4096 == y / 16 / 16;
  }

  lemma DigitsRead(h: seq<byte>, x: nat)
    requires DigitsOf(h, x)
    ensures Utf16Hex(h) == Some(x)
  {
    DigitExactly(h[0], x / 4096);
    DigitExactly(h[1], x / 256 % 16);
    DigitExactly(h[2], x / 16 % 16);
    DigitExactly(h[3], x % 16);
    HexPlaces(x);
  }

  lemma DigitsTogether(h: seq<byte>, a: nat, b: nat, c: nat, d: nat)
    requires |h| == 4 && DigitOf(h[0], a) && DigitOf(h[1], b) && DigitOf(h[2], c) && DigitOf(h[3], d)
    ensures DigitsOf(h, a * 4096 + b * 256 + c * 16 + d)
  {
    Places(a, b, c, d);
  }

  lemma HexValue(h: seq<byte>, a: int, b: int, c: int, d: int)
    requires |h| == 4 && Utf16Hex(h).Some?
    requires (a, b, c, d) == (HexCharToInt(h[0]), HexCharToInt(h[1]), HexCharToInt(h[2]), HexCharToInt(h[3]))
    ensures a >= 0 && b >= 0 && c >= 0 && d >= 0 && Utf16Hex(h).value == a * 4096 + b * 256 + c * 16 + d
  {
  }

  lemma DigitsWritten(h: seq<byte>)
    requires |h| == 4 && Utf16Hex(h).Some?
    ensures DigitsOf(h, Utf16Hex(h).value)
  {
    var a, b, c, d := HexCharToInt(h[0]), HexCharToInt(h[1]), HexCharToInt(h[2]), HexCharToInt(h[3]);
    HexValue(h, a, b, c, d);
    DigitExactly(h[0], a);
    DigitExactly(h[1], b);
    DigitExactly(h[2], c);
    DigitExactly(h[3], d);
    DigitsTogether(h, a, b, c, d);
  }

  /** Four bytes are read as a number exactly when they are its digits. */
  lemma HexExactly(h: seq<byte>, x: nat)
    requires |h| == 4
    ensures Utf16Hex(h) == Some(x) <==> DigitsOf(h, x)
  {
    if Utf16Hex(h).Some? {
      DigitsWritten(h);
    }
    if DigitsOf(h, x) {
      DigitsRead(h, x);
    }
  }

  // ---- Scanner, decoder and grammar agree -----------------------------------

  lemma SkipPlain(t: seq<byte>, k: nat)
    requires k <= |t|
    requires forall i :: 0 <= i < k ==> t[i] != QUOTE && t[i] != BACKSLASH && t[i] != 0
    ensures SkipBody(t).Some? <==> SkipBody(t[k..]).Some?
    ensures SkipBody(t).Some? ==> SkipBody(t).value == SkipBody(t[k..]).value + k
    decreases k
  {
    if k > 0 {
      SkipPlain(t[1..], k - 1);
      assert t[1..][k - 1..] == t[k..];
    } else {
      assert t[0..] == t;
    }
  }

  lemma SkipHex(t: seq<byte>)
    requires Utf16Hex(t).Some?
    ensures SkipBody(t).Some? <==> SkipBody(t[4..]).Some?
    ensures SkipBody(t).Some? ==> SkipBody(t).value == SkipBody(t[4..]).value + 4
  {
    SkipPlain(t, 4);
  }

  lemma SkipCode(t: seq<byte>)
    requires |t| >= 2 && t[0] == BACKSLASH && t[1] == LOWER_U && Utf16Hex(t[2..]).Some?
    ensures SkipBody(t).Some? <==> SkipBody(t[6..]).Some?
    ensures SkipBody(t).Some? ==> SkipBody(t).value == SkipBody(t[6..]).value + 6
  {
    SkipHex(t[2..]);
    assert t[2..][4..] == t[6..];
  }

  lemma {:induction false} SkipPair(t: seq<byte>)
    requires |t| >= 8 && t[0] == BACKSLASH && t[1] == LOWER_U && Utf16Hex(t[2..]).Some?
    requires t[6] == BACKSLASH && t[7] == LOWER_U && Utf16Hex(t[8..]).Some?
    ensures SkipBody(t).Some? <==> SkipBody(t[12..]).Some?
    ensures SkipBody(t).Some? ==> SkipBody(t).value == SkipBody(t[12..]).value + 12
  {
    SkipCode(t);
    assert t[6..][2..] == t[8..] && t[6..][6..] == t[12..];
    SkipCode(t[6..]);
  }

  /** The scanner steps over exactly what the decoder consumes. */
  lemma {:induction false} SkipOne(t: seq<byte>)
    requires |t| > 0 && t[0] != QUOTE && t[0] != 0 && DecodeOne(t).Some?
    ensures var k := DecodeOne(t).value.1;
      && (SkipBody(t).Some? <==> SkipBody(t[k..]).Some?)
      && (SkipBody(t).Some? ==> SkipBody(t).value == SkipBody(t[k..]).value + k)
  {
    if t[0] == BACKSLASH && At(t, 1) == LOWER_U {
      if DecodeOne(t).value.1 == 12 {
        assert t[2..][6..] == t[8..];
        SkipPair(t);
      } else {
        SkipCode(t);
      }
    }
  }

  /** Only the four digits matter. */
  lemma HexPrefix(h: seq<byte>, t: seq<byte>)
    requires |h| == 4 && h <= t
    ensures Utf16Hex(t) == Utf16Hex(h)
  {
    assert t[0] == h[0] && t[1] == h[1] && t[2] == h[2] && t[3] == h[3];
  }

  lemma Utf16Sound(t: seq<byte>) returns (u: GoodUnit)
    requires Utf16(t).Some?
    ensures UnitText(u) == [BACKSLASH, LOWER_U] + t[..Utf16(t).value.1] && UnitBytes(u) == Utf16(t).value.0
  {
    var h := t[..4];
    HexPrefix(h, t);
    if Utf16(t).value.1 == 4 {
      u := Code(h);
    } else {
      var l := t[6..10];
      HexPrefix(l, t[6..]);
      u := Pair(h, l);
      assert t[..10] == h + [BACKSLASH, LOWER_U] + l;
    }
  }

  /** What one step of the decoder accepts is one unit ... */
  lemma DecodeOneSound(t: seq<byte>) returns (u: GoodUnit)
    requires |t| > 0 && t[0] != QUOTE && DecodeOne(t).Some?
    ensures UnitText(u) <= t && |UnitText(u)| == DecodeOne(t).value.1 && UnitBytes(u) == DecodeOne(t).value.0
  {
    if t[0] == BACKSLASH {
      if t[1] == LOWER_U {
        var x := t[2..];
        u := Utf16Sound(x);
        EscapeAccepted(t, x);
        assert [BACKSLASH, LOWER_U] + x[..Utf16(x).value.1] <= t;
      } else {
        EscapeTable(t[1]);
        u := Escape(t[1]);
      }
    } else {
      u := Plain(t[0]);
    }
  }

  lemma CodeAccepted(h: seq<byte>, rest: seq<byte>)
    requires UnitOk(Code(h))
    ensures Utf16(h + rest) == Some((UnitBytes(Code(h)), 4))
  {
    HexPrefix(h, h + rest);
  }

  lemma PairAccepted(l: seq<byte>, r: seq<byte>, rest: seq<byte>)
    requires UnitOk(Pair(l, r))
    ensures Utf16(l + [BACKSLASH, LOWER_U] + r + rest) == Some((UnitBytes(Pair(l, r)), 10))
  {
    var t := l + [BACKSLASH, LOWER_U] + r + rest;
    HexPrefix(l, t);
    assert t[6..] == r + rest;
    HexPrefix(r, r + rest);
  }

  lemma EscapeAccepted(t: seq<byte>, x: seq<byte>)
    requires t == [BACKSLASH, LOWER_U] + x && Utf16(x).Some?
    ensures DecodeOne(t) == Some((Utf16(x).value.0, Utf16(x).value.1 + 2))
  {
    assert t[2..] == x;
  }

  lemma CodeComplete(h: seq<byte>, rest: seq<byte>)
    requires UnitOk(Code(h))
    ensures DecodeOne([BACKSLASH, LOWER_U] + h + rest) == Some((UnitBytes(Code(h)), 6))
  {
    CodeAccepted(h, rest);
    assert [BACKSLASH, LOWER_U] + h + rest == [BACKSLASH, LOWER_U] + (h + rest);
    EscapeAccepted([BACKSLASH, LOWER_U] + h + rest, h + rest);
  }

  lemma PairComplete(l: seq<byte>, r: seq<byte>, rest: seq<byte>)
    requires UnitOk(Pair(l, r))
    ensures DecodeOne([BACKSLASH, LOWER_U] + l + [BACKSLASH, LOWER_U] + r + rest) == Some((UnitBytes(Pair(l, r)), 12))
  {
    var x := l + [BACKSLASH, LOWER_U] + r + rest;
    PairAccepted(l, r, rest);
    assert [BACKSLASH, LOWER_U] + l + [BACKSLASH, LOWER_U] + r + rest == [BACKSLASH, LOWER_U] + x;
    EscapeAccepted([BACKSLASH, LOWER_U] + x, x);
  }

  /** ... and every unit is accepted in one step, whatever follows. */
  lemma DecodeOneComplete(u: GoodUnit, rest: seq<byte>)
    ensures DecodeOne(UnitText(u) + rest) == Some((UnitBytes(u), |UnitText(u)|))
  {
    match u
    case Plain(b) =>
    case Escape(c) => EscapeTable(c);
    case Code(h) => CodeComplete(h, rest);
    case Pair(l, r) => PairComplete(l, r, rest);
  }

  lemma UnitStarts(u: GoodUnit)
    ensures UnitText(u)[0] != QUOTE && UnitText(u)[0] != 0
  {
  }

  lemma DecodeUnit(u: GoodUnit, rest: seq<byte>, n: int)
    requires n > 0
    ensures Decode(UnitText(u) + rest, n) == Prepend(UnitBytes(u), Decode(rest, n - |UnitText(u)|))
  {
    DecodeOneComplete(u, rest);
    UnitStarts(u);
    DecodeFirst(UnitText(u), rest, n);
  }

  lemma DecodeFirst(a: seq<byte>, rest: seq<byte>, n: int)
    requires |a| > 0 && a[0] != 0 && n > 0 && DecodeOne(a + rest).Some? && DecodeOne(a + rest).value.1 == |a|
    ensures Decode(a + rest, n) == Prepend(DecodeOne(a + rest).value.0, Decode(rest, n - |a|))
  {
    assert (a + rest)[|a|..] == rest;
  }

  lemma SkipStep(a: seq<byte>, t: seq<byte>, rest: seq<byte>)
    requires |a| > 0 && a[0] != QUOTE && a[0] != 0 && t == a + rest
    requires DecodeOne(t).Some? && DecodeOne(t).value.1 == |a| && SkipBody(rest).Some?
    ensures SkipBody(t) == Some(|a| + SkipBody(rest).value)
  {
    assert t[|a|..] == rest;
    SkipOne(t);
  }

  lemma {:induction false} SkipUnit(u: GoodUnit, rest: seq<byte>)
    requires SkipBody(rest).Some?
    ensures SkipBody(UnitText(u) + rest) == Some(|UnitText(u)| + SkipBody(rest).value)
  {
    DecodeOneComplete(u, rest);
    UnitStarts(u);
    SkipStep(UnitText(u), UnitText(u) + rest, rest);
  }

  /** A literal written by the grammar is scanned to its end ... */
  lemma {:induction false} SkipComplete(us: seq<GoodUnit>, rest: seq<byte>)
    ensures SkipBody(Text(us) + [QUOTE] + rest) == Some(|Text(us)|)
  {
    if |us| > 0 {
      var first, others := UnitText(us[0]), Text(us[1..]);
      SkipComplete(us[1..], rest);
      SkipUnit(us[0], others + [QUOTE] + rest);
      Regroup(first, others, [QUOTE], rest);
    }
  }

  /** A text in front of any other text contributes its meaning. */
  ghost predicate Contributes(text: seq<byte>, meaning: seq<byte>) {
    forall x, n :: n >= |text| ==> Decode(text + x, n) == Prepend(meaning, Decode(x, n - |text|))
  }

  lemma NothingContributes()
    ensures Contributes([], [])
  {
    forall x, n | n >= 0 ensures Decode([] + x, n) == Prepend([], Decode(x, n)) {
      assert [] + x == x;
      PrependNothing(Decode(x, n));
    }
  }

  lemma UnitContributes(u: GoodUnit)
    ensures Contributes(UnitText(u), UnitBytes(u))
  {
    forall x, n | n >= |UnitText(u)|
      ensures Decode(UnitText(u) + x, n) == Prepend(UnitBytes(u), Decode(x, n - |UnitText(u)|))
    {
      DecodeUnit(u, x, n);
    }
  }

  lemma ContributeBoth(a: seq<byte>, b: seq<byte>, ma: seq<byte>, mb: seq<byte>)
    requires Contributes(a, ma) && Contributes(b, mb)
    ensures Contributes(a + b, ma + mb)
  {
    forall x, n | n >= |a + b| ensures Decode(a + b + x, n) == Prepend(ma + mb, Decode(x, n - |a + b|)) {
      assert a + b + x == a + (b + x);
      assert Decode(a + (b + x), n) == Prepend(ma, Decode(b + x, n - |a|));
      assert Decode(b + x, n - |a|) == Prepend(mb, Decode(x, n - |a| - |b|));
      PrependTwice(ma, mb, Decode(x, n - |a + b|));
    }
  }

  lemma {:induction false} TextContributes(us: seq<GoodUnit>)
    ensures Contributes(Text(us), Meaning(us))
  {
    if |us| == 0 {
      NothingContributes();
    } else {
      TextContributes(us[1..]);
      UnitContributes(us[0]);
      ContributeBoth(UnitText(us[0]), Text(us[1..]), UnitBytes(us[0]), Meaning(us[1..]));
    }
  }

  /** ... and decoded to its meaning. */
  lemma DecodeComplete(us: seq<GoodUnit>, rest: seq<byte>)
    ensures Decode(Text(us) + [QUOTE] + rest, |Text(us)|) == Some(Meaning(us))
  {
    TextContributes(us);
    assert Decode(Text(us) + ([QUOTE] + rest), |Text(us)|) == Prepend(Meaning(us), Decode([QUOTE] + rest, 0));
    assert Meaning(us) + [] == Meaning(us);
    assert Text(us) + [QUOTE] + rest == Text(us) + ([QUOTE] + rest);
  }

  lemma TextCons(u: GoodUnit, us: seq<GoodUnit>)
    ensures Text([u] + us) == UnitText(u) + Text(us)
    ensures Meaning([u] + us) == UnitBytes(u) + Meaning(us)
  {
    assert ([u] + us)[1..] == us;
  }

  /** The body of `n` bytes at the cursor is decoded to `out`. */
  ghost predicate Decodes(t: seq<byte>, n: nat, out: seq<byte>) {
    SkipBody(t) == Some(n) && Decode(t, n) == Some(out)
  }

  lemma {:induction false} SoundStep(t: seq<byte>, n: nat, out: seq<byte>) returns (u: GoodUnit, more: seq<byte>)
    requires Decodes(t, n, out) && n > 0
    ensures var k := |UnitText(u)|;
      k <= n <= |t| && t[..k] == UnitText(u) && Decodes(t[k..], n - k, more) && out == UnitBytes(u) + more
  {
    SkipOne(t);
    u := DecodeOneSound(t);
    more := Decode(t[|UnitText(u)|..], n - |UnitText(u)|).value;
  }

  /** A body that is scanned and decoded is written by the grammar, up to the quote and no further. */
  lemma {:induction false} DecodeSound(t: seq<byte>, n: nat, out: seq<byte>) returns (us: seq<GoodUnit>)
    requires Decodes(t, n, out)
    ensures n <= |t| && Text(us) == t[..n] && Meaning(us) == out
    decreases |t|
  {
    if n == 0 {
      us := [];
    } else {
      var u, more := SoundStep(t, n, out);
      var rest := DecodeSound(t[|UnitText(u)|..], n - |UnitText(u)|, more);
      us := UnitBefore(t, n, u, rest);
    }
  }

  lemma {:induction false} UnitBefore(t: seq<byte>, n: nat, u: GoodUnit, rest: seq<GoodUnit>)
    returns (us: seq<GoodUnit>)
    requires var k := |UnitText(u)|; k <= n <= |t| && t[..k] == UnitText(u) && Text(rest) == t[k..][..n - k]
    ensures Text(us) == t[..n] && Meaning(us) == UnitBytes(u) + Meaning(rest)
  {
    us := [u] + rest;
    TextCons(u, rest);
    SplitTake(t, |UnitText(u)|, n);
  }

  lemma DecodeWritten(t: seq<byte>, us: seq<GoodUnit>)
    requires SkipBody(t).Some? && Text(us) == t[..SkipBody(t).value]
    ensures Decode(t, SkipBody(t).value) == Some(Meaning(us))
  {
    var n := SkipBody(t).value;
    assert t == Text(us) + [QUOTE] + t[n + 1..];
    DecodeComplete(us, t[n + 1..]);
  }

  /** The decoder accepts a scanned body exactly when the grammar writes it. */
  lemma DecodeExact(t: seq<byte>, out: seq<byte>)
    requires SkipBody(t).Some?
    ensures Decode(t, SkipBody(t).value) == Some(out) <==>
      exists us: seq<GoodUnit> :: Text(us) == t[..SkipBody(t).value] && Meaning(us) == out
  {
    var n := SkipBody(t).value;
    if Decode(t, n) == Some(out) {
      var us := DecodeSound(t, n, out);
    }
    forall us: seq<GoodUnit> | Text(us) == t[..n] && Meaning(us) == out
      ensures Decode(t, n) == Some(out)
    {
      DecodeWritten(t, us);
    }
  }
}
