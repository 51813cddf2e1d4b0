/**
 * Single-line basic strings of TOML: the scanner that delimits the token, and the
 * normalizer that decodes it.  Both are compared with the same grammar of units.
 */
module TomlStrings {
  import opened Bytes
  import opened TomlCodes

  const RETURN: byte := 0x0D
  const UPPER_U: byte := 0x55

  /** Upper-case hexadecimal digits only. */
  function HexValue(c: byte): (v: int)
    ensures -1 <= v < 16
  {
    if 0x30 <= c <= 0x39 then c - 0x30 else if 0x41 <= c <= 0x46 then c - 0x41 + 10 else -1
  }

  predicate IsHex(c: byte) { HexValue(c) != -1 }

  predicate AllHex(t: seq<byte>) { forall i :: 0 <= i < |t| ==> IsHex(t[i]) }

  /** The byte that a two-character escape stands for. */
  function SimpleEscape(c: byte): (r: Option<byte>) {
    if c == 0x62 then Some(0x08)
    else if c == 0x74 then Some(0x09)
    else if c == 0x6E then Some(0x0A)
    else if c == 0x66 then Some(0x0C)
    else if c == 0x72 then Some(0x0D)
    else if c == QUOTE || c == BACKSLASH then Some(c)
    else None
  }

  // ---- The scanner ---------------------------------------------------------------------------

  /** The distance to the closing quote, after a backslash or not, with some digits still required. */
  function Scan(t: seq<byte>, escape: bool, hexreq: nat): (r: Option<nat>)
    ensures r.Some? ==> r.value < |t| && t[r.value] == QUOTE
    decreases |t|
  {
    if Head(t) == 0 then None
    else if escape then
      if SimpleEscape(t[0]).Some? then Further(Scan(t[1..], false, hexreq))
      else if t[0] == LOWER_U then Further(Scan(t[1..], false, 4))
      else if t[0] == UPPER_U then Further(Scan(t[1..], false, 8))
      else None
    else if hexreq > 0 then
      if IsHex(t[0]) then Further(Scan(t[1..], false, hexreq - 1)) else None
    else if t[0] == BACKSLASH then Further(Scan(t[1..], true, 0))
    else if t[0] == NEWLINE then None
    else if t[0] == QUOTE then Some(0)
    else Further(Scan(t[1..], false, 0))
  }

  function Further(r: Option<nat>): Option<nat> {
    if r.None? then None else Some(r.value + 1)
  }

  /** The scanner's loop over a text whose opening quote is at `start`. */
  method ScanString(s: seq<byte>, start: nat) returns (ok: bool, end: nat)
    requires start < |s| && s[start] == QUOTE
    ensures ok <==> Scan(s[start + 1..], false, 0).Some?
    ensures ok ==> end == start + 1 + Scan(s[start + 1..], false, 0).value + 1 <= |s| && s[end - 1] == QUOTE
  {
    var p, hexreq, escape := start + 1, 0, false;
    ghost var spec, t := Scan(s[start + 1..], false, 0), s[start + 1..];
    while At(s, p) != 0
      invariant start + 1 <= p <= |s| && 0 <= hexreq && (escape ==> hexreq == 0) && t == s[p..]
      invariant spec.Some? <==> Scan(t, escape, hexreq).Some?
      invariant spec.Some? ==> start + 1 + spec.value == p + Scan(t, escape, hexreq).value
      decreases |s| - p
    {
      var c := s[p];
      if escape {
        escape := false;
        if SimpleEscape(c).Some? {
        } else if c == LOWER_U {
          hexreq := 4;
        } else if c == UPPER_U {
          hexreq := 8;
        } else {
          return false, p;
        }
      } else if hexreq > 0 {
        hexreq := hexreq - 1;
        if !IsHex(c) {
          return false, p;
        }
      } else if c == BACKSLASH {
        escape := true;
      } else if c == NEWLINE || c == QUOTE {
        break;
      }
      t := t[1..];
      p := p + 1;
    }
    if At(s, p) != QUOTE {
      return false, p;
    }
    return true, p + 1;
  }

  // ---- The normalizer --------------------------------------------------------------------------

  function HexCode(t: seq<byte>): nat
    requires AllHex(t)
  {
    if |t| == 0 then 0 else HexCode(t[..|t| - 1]) * 16 + HexDigit(t[|t| - 1])
  }

  function HexDigit(c: byte): nat
    requires IsHex(c)
  {
    HexValue(c)
  }

  /** Blanks after a backslash at the end of a line. */
  function Span(t: seq<byte>): (n: nat)
    ensures n <= |t|
  {
    if |t| > 0 && (t[0] == 0x20 || t[0] == 0x09 || t[0] == RETURN || t[0] == NEWLINE) then 1 + Span(t[1..]) else 0
  }

  predicate LineEnds(t: seq<byte>) {
    |t| > 0 && (t[0] == NEWLINE || (t[0] == RETURN && |t| > 1 && t[1] == NEWLINE))
  }

  /** The escape whose letter is at the start of `t`: its bytes and its length. */
  function NormalizeEscape(t: seq<byte>): (r: Option<(seq<byte>, nat)>)
    requires |t| > 0
    ensures r.Some? ==> 1 <= r.value.1 <= |t| && |r.value.0| <= 6
  {
    if t[0] == LOWER_U || t[0] == UPPER_U then
      var nhex := if t[0] == LOWER_U then 4 else 8;
      if |t| < 1 + nhex || !AllHex(t[1..1 + nhex]) then None
      else
        match EncodeUcs(HexCode(t[1..1 + nhex]))
        case None => None
        case Some(e) => Some((e, 1 + nhex))
    else
      match SimpleEscape(t[0])
      case None => None
      case Some(b) => Some(([b], 1))
  }

  /** The first element of a string: its bytes, and how much text it takes. */
  function NormalizeOne(t: seq<byte>, killLineEnds: bool): (r: Option<(seq<byte>, nat)>)
    requires |t| > 0
    ensures r.Some? ==> 1 <= r.value.1 <= |t| && |r.value.0| <= 6
  {
    if t[0] != BACKSLASH then Some(([t[0]], 1))
    else if |t| == 1 then None
    else if killLineEnds && LineEnds(t[1..]) then Some(([], 1 + Span(t[1..])))
    else
      match NormalizeEscape(t[1..])
      case None => None
      case Some((bytes, n)) => Some((bytes, n + 1))
  }

  function Normalize(t: seq<byte>, killLineEnds: bool): (r: Option<seq<byte>>)
    decreases |t|
  {
    if |t| == 0 then Some([])
    else
      match NormalizeOne(t, killLineEnds)
      case None => None
      case Some((bytes, k)) => Prepend(bytes, Normalize(t[k..], killLineEnds))
  }

  /** A raw value that starts with a double quote but not with three of them. */
  function RtosBasic(src: seq<byte>): (r: Option<seq<byte>>)
    requires |src| > 0 && src[0] == QUOTE && !([QUOTE, QUOTE, QUOTE] <= src)
  {
    var sq: int := |src| - 1;
    if !(1 <= sq && src[sq] == QUOTE) then None else Normalize(src[1..sq], true)
  }

  // ---- The grammar -----------------------------------------------------------------------------

  /** The letters behind a backslash and the bytes that they stand for. */
  const ESCAPES: map<byte, byte> :=
    map[0x62 := 0x08, 0x74 := 0x09, 0x6E := 0x0A, 0x66 := 0x0C, 0x72 := 0x0D, 0x22 := 0x22, 0x5C := 0x5C]

  /** The digit of a value below sixteen. */
  function HexChar(d: nat): (c: byte)
    requires d < 16
  {
    [0x30, 0x31, 0x32, 0x33, 0x34, 0x35, 0x36, 0x37, 0x38, 0x39, 0x41, 0x42, 0x43, 0x44, 0x45, 0x46][d]
  }

  /** A number as `n` hexadecimal digits. */
  function HexText(x: nat, n: nat): (h: seq<byte>)
    ensures |h| == n
  {
    if n == 0 then [] else HexText(x / 16, n - 1) + [HexChar(x % 16)]
  }

  datatype Unit = Plain(b: byte) | Escape(c: byte) | Code(code: nat, digits: nat)

  predicate UnitOk(u: Unit) {
    match u
    case Plain(b) => b != 0x22 && b != 0x5C && b != 0x0A && b != 0
    case Escape(c) => c in ESCAPES
    case Code(x, n) => (n == 4 && x < 0x1_0000) || (n == 8 && x < 0x1_0000_0000)
  }

  type GoodUnit = u: Unit | UnitOk(u) witness Plain(0x20)

  function UnitText(u: GoodUnit): (t: seq<byte>)
    ensures |t| > 0
  {
    match u
    case Plain(b) => [b]
    case Escape(c) => [0x5C, c]
    case Code(x, n) => [0x5C, if n == 4 then 0x75 else 0x55] + HexText(x, n)
  }

  /** The bytes of a unit, unless it names a code that has none. */
  function UnitBytes(u: GoodUnit): Option<seq<byte>> {
    match u
    case Plain(b) => Some([b])
    case Escape(c) => Some([ESCAPES[c]])
    case Code(x, _) => EncodeUcs(x)
  }

  function Text(us: seq<GoodUnit>): seq<byte> {
    if |us| == 0 then [] else UnitText(us[0]) + Text(us[1..])
  }

  /** The meaning of a string, unless one of its codes is refused. */
  function Meaning(us: seq<GoodUnit>): Option<seq<byte>> {
    if |us| == 0 then Some([])
    else if UnitBytes(us[0]).None? then None
    else Prepend(UnitBytes(us[0]).value, Meaning(us[1..]))
  }

  lemma {:induction false} MeaningExists(us: seq<GoodUnit>)
    ensures Meaning(us).Some? <==> forall i :: 0 <= i < |us| && us[i].Code? ==> EncodeUcs(us[i].code).Some?
  {
    if |us| > 0 {
      MeaningExists(us[1..]);
      assert us == [us[0]] + us[1..];
    }
  }

  // ---- The tables of the source agree with the grammar ----------------------------------------------

  lemma EscapeTable(c: byte)
    ensures SimpleEscape(c) == if c in ESCAPES then Some(ESCAPES[c]) else None
  {
  }

  function Pow16(n: nat): nat {
    if n == 0 then 1 else 16 * Pow16(n - 1)
  }

  lemma DigitRead(d: nat)
    requires d < 16
    ensures HexValue(HexChar(d)) == d
  {
  }

  lemma DigitWritten(c: byte)
    requires IsHex(c)
    ensures HexChar(HexDigit(c)) == c
  {
  }

  /** What is written as digits is read as the same number. */
  lemma {:induction false} HexRead(x: nat, n: nat)
    requires x < Pow16(n)
    ensures AllHex(HexText(x, n)) && HexCode(HexText(x, n)) == x
  {
    if n > 0 {
      var h := HexText(x / 16, n - 1);
      HexRead(x / 16, n - 1);
      DigitRead(x % 16);
      assert HexText(x, n)[..n - 1] == h;
    }
  }

  /** What is read from digits is written as the same digits. */
  lemma {:induction false} HexWritten(h: seq<byte>)
    requires AllHex(h)
    ensures HexText(HexCode(h), |h|) == h && HexCode(h) < Pow16(|h|)
  {
    if |h| > 0 {
      var n := |h| - 1;
      HexWritten(h[..n]);
      DigitWritten(h[n]);
      assert h == h[..n] + [h[n]];
      assert HexCode(h) / 16 == HexCode(h[..n]) && HexCode(h) % 16 == HexDigit(h[n]);
    }
  }

  lemma FourOrEight()
    ensures Pow16(4) == 0x1_0000 && Pow16(8) == 0x1_0000_0000
  {
    assert Pow16(4) == 16 * (16 * (16 * (16 * Pow16(0))));
    assert Pow16(8) == 16 * (16 * (16 * (16 * Pow16(4))));
  }

  /** The digits of a unit. */
  lemma CodeDigits(x: nat, n: nat)
    requires UnitOk(Code(x, n))
    ensures AllHex(HexText(x, n)) && HexCode(HexText(x, n)) == x
  {
    FourOrEight();
    HexRead(x, n);
  }

  // ---- The scanner accepts the grammar -----------------------------------------------------------

  lemma HexTail(t: seq<byte>, n: nat)
    requires 0 < n <= |t|
    ensures t[1..][n - 1..] == t[n..] && (AllHex(t[..n]) <==> IsHex(t[0]) && AllHex(t[1..][..n - 1]))
  {
    assert t[..n] == [t[0]] + t[1..][..n - 1];
  }

  lemma {:induction false} ScanHex(t: seq<byte>, n: nat)
    ensures Scan(t, false, n).Some? <==> n <= |t| && AllHex(t[..n]) && Scan(t[n..], false, 0).Some?
    ensures Scan(t, false, n).Some? ==> Scan(t, false, n).value == n + Scan(t[n..], false, 0).value
    decreases n
  {
    if n == 0 {
      assert t[0..] == t;
    } else if Head(t) == 0 {
      assert n <= |t| ==> !IsHex(t[..n][0]);
    } else {
      ScanHex(t[1..], n - 1);
      if n <= |t| {
        HexTail(t, n);
      }
    }
  }

  lemma ScanEscape(c: byte, rest: seq<byte>)
    requires c in ESCAPES && Scan(rest, false, 0).Some?
    ensures Scan([BACKSLASH, c] + rest, false, 0) == Some(2 + Scan(rest, false, 0).value)
  {
    var t := [BACKSLASH, c] + rest;
    EscapeTable(c);
    assert t[1..] == [c] + rest && t[1..][1..] == rest;
  }

  lemma ScanUnit(u: GoodUnit, rest: seq<byte>)
    requires Scan(rest, false, 0).Some?
    ensures Scan(UnitText(u) + rest, false, 0) == Some(|UnitText(u)| + Scan(rest, false, 0).value)
  {
    var t := UnitText(u) + rest;
    match u
    case Plain(b) => assert t[1..] == rest;
    case Escape(c) => ScanEscape(c, rest);
    case Code(x, n) => ScanCode(x, n, rest);
  }

  lemma ScanLetter(letter: byte, x: seq<byte>)
    requires letter == LOWER_U || letter == UPPER_U
    ensures Scan([BACKSLASH, letter] + x, false, 0) ==
      Further(Further(Scan(x, false, if letter == LOWER_U then 4 else 8)))
  {
    var t, y := [BACKSLASH, letter] + x, [letter] + x;
    assert t[1..] == y && y[1..] == x;
  }

  lemma ScanDigits(h: seq<byte>, rest: seq<byte>)
    requires AllHex(h) && Scan(rest, false, 0).Some?
    ensures Scan(h + rest, false, |h|) == Some(|h| + Scan(rest, false, 0).value)
  {
    var x := h + rest;
    assert x[..|h|] == h && x[|h|..] == rest;
    ScanHex(x, |h|);
  }

  lemma ScanCode(code: nat, n: nat, rest: seq<byte>)
    requires UnitOk(Code(code, n)) && Scan(rest, false, 0).Some?
    ensures Scan(UnitText(Code(code, n)) + rest, false, 0) == Some(2 + n + Scan(rest, false, 0).value)
  {
    var letter, h := if n == 4 then LOWER_U else UPPER_U, HexText(code, n);
    CodeDigits(code, n);
    ScanDigits(h, rest);
    ScanLetter(letter, h + rest);
    assert UnitText(Code(code, n)) + rest == [BACKSLASH, letter] + (h + rest);
  }

  /** A string of the grammar is scanned to its closing quote. */
  lemma {:induction false} ScanComplete(us: seq<GoodUnit>, rest: seq<byte>)
    ensures Scan(Text(us) + [QUOTE] + rest, false, 0) == Some(|Text(us)|)
  {
    if |us| > 0 {
      var first, others := UnitText(us[0]), Text(us[1..]);
      ScanComplete(us[1..], rest);
      ScanUnit(us[0], others + [QUOTE] + rest);
      Regroup(first, others, [QUOTE], rest);
    }
  }

  lemma ScanSoundCode(t: seq<byte>, letter: byte, x: seq<byte>, n: nat) returns (u: GoodUnit)
    requires letter == LOWER_U || letter == UPPER_U
    requires t == [BACKSLASH, letter] + x && Scan(t, false, 0) == Some(n)
    ensures var k := |UnitText(u)|; k <= n && t[..k] == UnitText(u) && Scan(t[k..], false, 0) == Some(n - k)
  {
    var m := if letter == LOWER_U then 4 else 8;
    ScanLetter(letter, x);
    ScanHex(x, m);
    FourOrEight();
    HexWritten(x[..m]);
    u := Code(HexCode(x[..m]), m);
    assert t[2 + m..] == x[m..];
  }

  lemma ScanSoundStep(t: seq<byte>, n: nat) returns (u: GoodUnit)
    requires Scan(t, false, 0) == Some(n) && n > 0
    ensures var k := |UnitText(u)|; k <= n && t[..k] == UnitText(u) && Scan(t[k..], false, 0) == Some(n - k)
  {
    if t[0] == BACKSLASH {
      var c := t[1];
      assert t[1..][1..] == t[2..];
      EscapeTable(c);
      if SimpleEscape(c).Some? {
        u := Escape(c);
      } else {
        assert t == [BACKSLASH, c] + t[2..];
        u := ScanSoundCode(t, c, t[2..], n);
      }
    } else {
      u := Plain(t[0]);
    }
  }

  lemma TextCons(u: GoodUnit, us: seq<GoodUnit>)
    ensures Text([u] + us) == UnitText(u) + Text(us)
  {
    assert ([u] + us)[1..] == us;
  }

  /** What is scanned before the closing quote is a string of the grammar. */
  lemma {:induction false} ScanSound(t: seq<byte>, n: nat) returns (us: seq<GoodUnit>)
    requires Scan(t, false, 0) == Some(n)
    ensures Text(us) == t[..n]
    decreases |t|
  {
    if n == 0 {
      us := [];
    } else {
      var u := ScanSoundStep(t, n);
      var k := |UnitText(u)|;
      var rest := ScanSound(t[k..], n - k);
      us := [u] + rest;
      TextCons(u, rest);
      SplitTake(t, k, n);
    }
  }

  // ---- The normalizer decodes the grammar ----------------------------------------------------------

  lemma NormalizeSimple(c: byte, rest: seq<byte>)
    requires c in ESCAPES
    ensures NormalizeEscape([c] + rest) == Some(([ESCAPES[c]], 1))
  {
    EscapeTable(c);
  }

  lemma NormalizeCode(h: seq<byte>, letter: byte, code: nat, rest: seq<byte>)
    requires AllHex(h) && HexCode(h) == code
    requires (letter == LOWER_U && |h| == 4) || (letter == UPPER_U && |h| == 8)
    ensures NormalizeEscape([letter] + h + rest) ==
      if EncodeUcs(code).None? then None else Some((EncodeUcs(code).value, 1 + |h|))
  {
    assert ([letter] + h + rest)[1..1 + |h|] == h;
  }

  lemma EscapeStep(x: seq<byte>, killLineEnds: bool)
    requires |x| > 0 && !LineEnds(x)
    ensures NormalizeOne([BACKSLASH] + x, killLineEnds) ==
      match NormalizeEscape(x) { case None => None case Some((bytes, n)) => Some((bytes, n + 1)) }
  {
    assert ([BACKSLASH] + x)[1..] == x;
  }

  lemma CodeStep(h: seq<byte>, letter: byte, code: nat, rest: seq<byte>, killLineEnds: bool)
    requires AllHex(h) && HexCode(h) == code
    requires (letter == LOWER_U && |h| == 4) || (letter == UPPER_U && |h| == 8)
    ensures NormalizeOne([BACKSLASH, letter] + h + rest, killLineEnds) ==
      if EncodeUcs(code).None? then None else Some((EncodeUcs(code).value, 2 + |h|))
  {
    var x := [letter] + h + rest;
    NormalizeCode(h, letter, code, rest);
    EscapeStep(x, killLineEnds);
    assert [BACKSLASH, letter] + h + rest == [BACKSLASH] + x;
  }

  lemma NormalizeUnit(u: GoodUnit, rest: seq<byte>, killLineEnds: bool)
    ensures NormalizeOne(UnitText(u) + rest, killLineEnds) ==
      if UnitBytes(u).None? then None else Some((UnitBytes(u).value, |UnitText(u)|))
  {
    var t := UnitText(u) + rest;
    match u
    case Plain(b) =>
    case Escape(c) =>
      NormalizeSimple(c, rest);
      assert t[1..] == [c] + rest;
    case Code(x, n) =>
      CodeDigits(x, n);
      CodeStep(HexText(x, n), if n == 4 then LOWER_U else UPPER_U, x, rest, killLineEnds);
  }

  /** Decoding a string of the grammar gives its meaning, or fails because a code is refused. */
  lemma {:induction false} NormalizeExactly(us: seq<GoodUnit>, killLineEnds: bool)
    ensures Normalize(Text(us), killLineEnds) == Meaning(us)
  {
    if |us| > 0 {
      NormalizeUnit(us[0], Text(us[1..]), killLineEnds);
      NormalizeExactly(us[1..], killLineEnds);
      assert Text(us)[|UnitText(us[0])|..] == Text(us[1..]);
    }
  }

  /** The end of a line, as it may stand behind a backslash. */
  ghost predicate IsLineEnd(w: seq<byte>) {
    w == [0x0A] || w == [0x0D, 0x0A]
  }

  /** Space, tab, return and newline. */
  ghost predicate IsFiller(b: byte) {
    b == 0x20 || b == 0x09 || b == 0x0D || b == 0x0A
  }

  lemma {:induction false} SpanAll(w: seq<byte>, rest: seq<byte>)
    requires (forall i :: 0 <= i < |w| ==> IsFiller(w[i])) && (|rest| > 0 ==> !IsFiller(rest[0]))
    ensures Span(w + rest) == |w|
  {
    if |w| == 0 {
      assert w + rest == rest;
    } else {
      assert (w + rest)[1..] == w[1..] + rest;
      SpanAll(w[1..], rest);
    }
  }

  /** A backslash at the end of a line stands for nothing, and so do all blanks and line ends behind it. */
  lemma {:induction false} LineEndVanishes(end: seq<byte>, w: seq<byte>, rest: seq<byte>)
    requires IsLineEnd(end) && forall i :: 0 <= i < |w| ==> IsFiller(w[i])
    requires |rest| > 0 ==> !IsFiller(rest[0])
    ensures Normalize([0x5C] + (end + w + rest), true) == Normalize(rest, true)
  {
    var t, x := [0x5C] + (end + w + rest), end + w + rest;
    assert t[1..] == x && t[1 + |end + w|..] == rest;
    SpanAll(end + w, rest);
    assert NormalizeOne(t, true) == Some(([], 1 + |end + w|));
    PrependNothing(Normalize(rest, true));
  }

  /** The text of the token that the scanner delimits after an opening quote. */
  function Token(t: seq<byte>): seq<byte>
    requires Scan(t, false, 0).Some?
  {
    [QUOTE] + t[..Scan(t, false, 0).value + 1]
  }

  lemma TokenText(t: seq<byte>, n: nat)
    requires n < |t| && t[n] == QUOTE
    ensures var src := [QUOTE] + t[..n + 1]; src == [QUOTE] + t[..n] + [QUOTE] && src[1..|src| - 1] == t[..n]
  {
    assert t[..n + 1] == t[..n] + [QUOTE];
  }

  lemma NotTripled(t: seq<byte>, n: nat)
    requires n < |t| && !([QUOTE, QUOTE] <= t)
    ensures !([QUOTE, QUOTE, QUOTE] <= [QUOTE] + t[..n + 1])
  {
    var src := [QUOTE] + t[..n + 1];
    assert |src| >= 3 ==> src[1] == t[0] && src[2] == t[1];
  }

  /**
   * Every token of the scanner is a string of the grammar; the value conversion gives its
   * meaning, and fails exactly when an escape names a code that the encoder refuses.
   */
  lemma TokenConverts(t: seq<byte>) returns (us: seq<GoodUnit>)
    requires Scan(t, false, 0).Some? && !([QUOTE, QUOTE] <= t)
    ensures Token(t) == [QUOTE] + Text(us) + [QUOTE] && !([QUOTE, QUOTE, QUOTE] <= Token(t))
    ensures RtosBasic(Token(t)) == Meaning(us)
    ensures RtosBasic(Token(t)).None? <==>
      exists i :: 0 <= i < |us| && us[i].Code? && EncodeUcs(us[i].code).None?
  {
    var n := Scan(t, false, 0).value;
    us := ScanSound(t, n);
    var src := Token(t);
    TokenText(t, n);
    NotTripled(t, n);
    NormalizeExactly(us, true);
    MeaningExists(us);
  }

  // ---- What the caller sees ------------------------------------------------------------------------

  /** The value as a C string: what precedes the first NUL of the bytes. */
  function RtosString(src: seq<byte>): (r: Option<CString>)
    requires |src| > 0 && src[0] == QUOTE && !([QUOTE, QUOTE, QUOTE] <= src)
  {
    match RtosBasic(src)
    case None => None
    case Some(bytes) => Some(CStr(bytes))
  }

  predicate NamesNul(u: GoodUnit) {
    u.Code? && u.code == 0
  }

  lemma CodeNul(code: int)
    requires EncodeUcs(code).Some?
    ensures NulFree(EncodeUcs(code).value) <==> code != 0
  {
    if code == 0 {
      assert EncodeUcs(code).value[0] == 0;
    }
  }

  lemma UnitNul(u: GoodUnit)
    requires UnitBytes(u).Some?
    ensures NulFree(UnitBytes(u).value) <==> !NamesNul(u)
  {
    match u
    case Plain(b) => assert UnitBytes(u).value[0] == b;
    case Escape(c) => assert UnitBytes(u).value[0] == ESCAPES[c];
    case Code(x, _) => CodeNul(x);
  }

  lemma NulFreeBoth(a: seq<byte>, b: seq<byte>)
    ensures NulFree(a + b) <==> NulFree(a) && NulFree(b)
  {
    assert forall i :: 0 <= i < |a| ==> (a + b)[i] == a[i];
    assert forall i :: 0 <= i < |b| ==> (a + b)[|a| + i] == b[i];
  }

  lemma {:induction false} MeaningNul(us: seq<GoodUnit>)
    requires Meaning(us).Some?
    ensures NulFree(Meaning(us).value) <==> forall i :: 0 <= i < |us| ==> !NamesNul(us[i])
  {
    if |us| > 0 {
      MeaningNul(us[1..]);
      UnitNul(us[0]);
      NulFreeBoth(UnitBytes(us[0]).value, Meaning(us[1..]).value);
      assert us == [us[0]] + us[1..];
    }
  }

  lemma {:induction false} CStrWhole(s: seq<byte>)
    ensures CStr(s) == s <==> NulFree(s)
  {
    if |s| > 0 && s[0] != 0 {
      CStrWhole(s[1..]);
      assert s == [s[0]] + s[1..];
    }
  }

  /**
   * The caller gets the meaning up to its first NUL.  That is the whole meaning if and only if no
   * escape names the code 0.
   */
  lemma StringConverts(t: seq<byte>) returns (us: seq<GoodUnit>)
    requires Scan(t, false, 0).Some? && !([QUOTE, QUOTE] <= t)
    ensures Token(t) == [QUOTE] + Text(us) + [QUOTE] && !([QUOTE, QUOTE, QUOTE] <= Token(t))
    ensures RtosString(Token(t)).Some? <==> Meaning(us).Some?
    ensures Meaning(us).Some? ==>
      && RtosString(Token(t)).value == CStr(Meaning(us).value)
      && (RtosString(Token(t)).value == Meaning(us).value <==> forall i :: 0 <= i < |us| ==> !NamesNul(us[i]))
  {
    us := TokenConverts(t);
    if Meaning(us).Some? {
      MeaningNul(us);
      CStrWhole(Meaning(us).value);
    }
  }

  // ---- The normalizer as it runs -------------------------------------------------------------------

  const SLACK: nat := 10
  const GROWTH: nat := 100

  /** A larger buffer with the same contents. */
  method Grow(dst: array<byte>, off: nat) returns (r: array<byte>)
    requires off <= dst.Length
    ensures fresh(r) && r.Length == dst.Length + GROWTH && r[..off] == dst[..off]
  {
    r := new byte[dst.Length + GROWTH];
    var i := 0;
    while i < off
      invariant 0 <= i <= off && r[..i] == dst[..i]
    {
      r[i] := dst[i];
      i := i + 1;
    }
  }

  /** The digits of an escape, one by one. */
  method ReadHex(t: seq<byte>, nhex: nat) returns (ok: bool, ucs: nat)
    ensures ok <==> nhex <= |t| && AllHex(t[..nhex])
    ensures ok ==> ucs == HexCode(t[..nhex])
  {
    ucs := 0;
    var i := 0;
    while i < nhex
      invariant 0 <= i <= nhex && i <= |t| && AllHex(t[..i])
      invariant ucs == HexCode(t[..i])
    {
      if i >= |t| {
        return false, ucs;
      }
      if HexValue(t[i]) == -1 {
        assert nhex <= |t| ==> !IsHex(t[..nhex][i]);
        return false, ucs;
      }
      assert t[..i + 1][..i] == t[..i];
      ucs := ucs * 16 + HexDigit(t[i]);
      i := i + 1;
    }
    return true, ucs;
  }

  /** Decodes the element at the start of `t` into a buffer with room for it. */
  method NormalizeStep(t: seq<byte>, killLineEnds: bool, dst: array<byte>, off: nat)
    returns (ok: bool, k: nat, off': nat)
    requires |t| > 0 && off + 6 <= dst.Length
    modifies dst
    ensures ok <==> NormalizeOne(t, killLineEnds).Some?
    ensures ok ==>
      && var (bytes, n) := NormalizeOne(t, killLineEnds).value;
      && k == n && off' == off + |bytes| <= dst.Length && dst[..off'] == old(dst[..off]) + bytes
  {
    if t[0] != BACKSLASH {
      dst[off] := t[0];
      return true, 1, off + 1;
    }
    if |t| == 1 {
      return false, 0, off;
    }
    if killLineEnds && LineEnds(t[1..]) {
      assert dst[..off] + [] == dst[..off];
      return true, 1 + Span(t[1..]), off;
    }
    if t[1] == LOWER_U || t[1] == UPPER_U {
      var nhex := if t[1] == LOWER_U then 4 else 8;
      assert |t| >= 2 + nhex ==> t[1..][1..1 + nhex] == t[2..][..nhex];
      var hexOk, ucs := ReadHex(t[2..], nhex);
      if !hexOk {
        return false, 0, off;
      }
      var n := UcsToUtf8(ucs, dst, off);
      if n == -1 {
        return false, 0, off;
      }
      return true, 2 + nhex, off + n;
    }
    var e := SimpleEscape(t[1]);
    if e.None? {
      return false, 0, off;
    }
    dst[off] := e.value;
    return true, 2, off + 1;
  }

  /**
   * The decoder with its growing buffer: before every element it keeps more than the slack
   * free, so that six bytes and the terminator always fit.
   */
  method NormalizeString(src: seq<byte>, killLineEnds: bool) returns (r: Option<seq<byte>>)
    ensures r == Normalize(src, killLineEnds)
  {
    var dst := new byte[0];
    var off, p := 0, 0;
    ghost var whole, t := Normalize(src, killLineEnds), src;
    assert whole.Some? ==> [] + whole.value == whole.value;
    while true
      invariant 0 <= p <= |src| && t == src[p..] && 0 <= off <= dst.Length && fresh(dst)
      invariant whole == Prepend(dst[..off], Normalize(t, killLineEnds))
      decreases |t|
    {
      if off >= dst.Length - SLACK {
        dst := Grow(dst, off);
      }
      assert off + 6 < dst.Length;
      if p >= |src| {
        break;
      }
      ghost var done := dst[..off];
      var ok, k;
      ok, k, off := NormalizeStep(src[p..], killLineEnds, dst, off);
      if !ok {
        return None;
      }
      NormalizeRound(done, t, killLineEnds);
      t := t[k..];
      p := p + k;
    }
    r := Some(dst[..off]);
    assert dst[..off] + [] == dst[..off];
    dst[off] := 0;
  }

  lemma NormalizeRound(done: seq<byte>, t: seq<byte>, killLineEnds: bool)
    requires |t| > 0 && NormalizeOne(t, killLineEnds).Some?
    ensures var (bytes, k) := NormalizeOne(t, killLineEnds).value;
      Prepend(done, Normalize(t, killLineEnds)) == Prepend(done + bytes, Normalize(t[k..], killLineEnds))
  {
    var (bytes, k) := NormalizeOne(t, killLineEnds).value;
    var r := Normalize(t[k..], killLineEnds);
    if r.Some? {
      assert done + (bytes + r.value) == done + bytes + r.value;
    }
  }
}
