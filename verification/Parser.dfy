/**
 * The recursive-descent parser as functions from the remaining text to a value and the
 * text after it.  `ParserMethods` runs the same parser with a cursor and a hash table.
 */
module Parser {
  import opened Bytes
  import opened Members
  import opened Values
  import opened JsonStrings

  const MAX_NESTING: nat := 2048

  type Result<T> = Option<(T, seq<byte>)>

  predicate IsSpace(b: byte) { b == 0x20 || 0x09 <= b <= 0x0D }
  predicate IsDigit(b: byte) { 0x30 <= b <= 0x39 }

  function SkipSpaces(t: seq<byte>): (r: seq<byte>)
    ensures |r| <= |t| && !IsSpace(Head(r))
  {
    if |t| > 0 && IsSpace(t[0]) then SkipSpaces(t[1..]) else t
  }

  ghost predicate Suffix(rest: seq<byte>, t: seq<byte>) {
    |rest| <= |t| && rest == t[|t| - |rest|..]
  }

  // ---- Scalars ---------------------------------------------------------------

  function DigitCount(t: seq<byte>): (k: nat)
    ensures k <= |t| && !IsDigit(Head(t[k..]))
    ensures forall i :: 0 <= i < k ==> IsDigit(t[i])
  {
    if |t| > 0 && IsDigit(t[0]) then 1 + DigitCount(t[1..]) else 0
  }

  function DigitValue(c: int): nat
    requires c >= 0x30
  {
    c - 0x30
  }

  function DigitsValue(t: seq<byte>): nat
    requires forall i :: 0 <= i < |t| ==> IsDigit(t[i])
  {
    if |t| == 0 then 0
    else
      assert IsDigit(t[|t| - 1]);
      DigitsValue(t[..|t| - 1]) * 10 + DigitValue(t[|t| - 1])
  }

  /** No superfluous leading zero.  (Hexadecimal digits have been excluded before.) */
  predicate IsDecimal(t: seq<byte>) {
    && !(|t| > 1 && t[0] == 0x30 && t[1] != 0x2E)
    && !(|t| > 2 && t[0] == 0x2D && t[1] == 0x30 && t[2] != 0x2E)
  }

  /** A byte with which the C library would read more into a number than its integer digits. */
  predicate ExtendsNumber(b: byte) {
    b == 0x2E || b == 0x45 || b == 0x65 || b == 0x58 || b == 0x78
  }

  /** A byte after a lone minus sign that may start a fraction, an infinity or a NaN. */
  predicate StartsOtherNumber(b: byte) {
    b == 0x2E || b == 0x49 || b == 0x69 || b == 0x4E || b == 0x6E
  }

  /**
   * Integers of at most 2^53 in magnitude.  A minus sign without a number converts to
   * nothing: the value is zero and the cursor does not move.
   */
  function ParseNumber(t: seq<byte>): (r: Result<Value>)
    ensures r.Some? ==> Suffix(r.value.1, t)
  {
    var sign := if Head(t) == 0x2D then 1 else 0;
    var k := DigitCount(t[sign..]);
    var after := t[sign + k..];
    if k == 0 then if StartsOtherNumber(Head(after)) then None else Some((Number(0), t))
    else if ExtendsNumber(Head(after)) || !IsDecimal(t[..sign + k]) then None
    else
      match NumberOf(sign == 1, t[sign..sign + k])
      case None => None
      case Some(v) => Some((v, after))
  }

  function NumberOf(negative: bool, digits: seq<byte>): (r: Option<Value>)
    requires forall i :: 0 <= i < |digits| ==> IsDigit(digits[i])
  {
    var m: int := DigitsValue(digits);
    if m > MAX_EXACT || (negative && m == 0) then None
    else Some(Number(if negative then -m else m))
  }

  function ParseBoolean(t: seq<byte>): (r: Result<Value>)
    ensures r.Some? ==> Suffix(r.value.1, t)
  {
    if Ascii("true") <= t then Some((Bool(true), t[4..]))
    else if Ascii("false") <= t then Some((Bool(false), t[5..]))
    else None
  }

  function ParseNull(t: seq<byte>): (r: Result<Value>)
    ensures r.Some? ==> Suffix(r.value.1, t)
  {
    if Ascii("null") <= t then Some((Null, t[4..])) else None
  }

  function ParseString(t: seq<byte>): (r: Result<Value>)
    ensures r.Some? ==> Suffix(r.value.1, t)
  {
    match QuotedString(t)
    case None => None
    case Some((s, rest)) => Some((String(s), rest))
  }

  // ---- Containers -------------------------------------------------------------

  function ParseValue(t0: seq<byte>, nesting: nat): (r: Result<Value>)
    ensures r.Some? ==> |r.value.1| <= |t0|
    decreases |t0|, 3
  {
    if nesting > MAX_NESTING then None
    else
      var t := SkipSpaces(t0);
      var c := Head(t);
      if c == 0x7B then ParseObject(t, nesting + 1)
      else if c == 0x5B then ParseArray(t, nesting + 1)
      else if c == QUOTE then ParseString(t)
      else if c == 0x66 || c == 0x74 then ParseBoolean(t)
      else if c == 0x2D || IsDigit(c) then ParseNumber(t)
      else if c == 0x6E then ParseNull(t)
      else None
  }

  /** After an element: whether another one follows.  A comma right before the bracket is let through. */
  function Separator(t: seq<byte>, close: byte): (r: (bool, seq<byte>))
    ensures |r.1| <= |t| && (r.0 ==> |r.1| < |t|)
  {
    var t1 := SkipSpaces(t);
    if Head(t1) != 0x2C then (false, t1)
    else
      var t2 := SkipSpaces(t1[1..]);
      (Head(t2) != close, t2)
  }

  function ParseArray(t: seq<byte>, nesting: nat): (r: Result<Value>)
    requires Head(t) == 0x5B
    ensures r.Some? ==> |r.value.1| <= |t|
    decreases |t|, 2
  {
    var t1 := SkipSpaces(t[1..]);
    if Head(t1) == 0x5D then Some((Array([]), t1[1..]))
    else
      match ParseItems(t1, nesting)
      case None => None
      case Some((items, t2)) =>
        var t3 := SkipSpaces(t2);
        if Head(t3) != 0x5D then None else Some((Array(items), t3[1..]))
  }

  /** The loop of the array parser, up to the place where the bracket should be. */
  function ParseItems(t: seq<byte>, nesting: nat): (r: Result<seq<Value>>)
    ensures r.Some? ==> |r.value.1| <= |t|
    decreases |t|, 4
  {
    if Head(t) == 0 then Some(([], t))
    else
      match ParseValue(t, nesting)
      case None => None
      case Some((v, t1)) =>
        var (more, t2) := Separator(t1, 0x5D);
        if !more then Some(([v], t2))
        else
          match ParseItems(t2, nesting)
          case None => None
          case Some((vs, t3)) => Some(([v] + vs, t3))
  }

  function ParseObject(t: seq<byte>, nesting: nat): (r: Result<Value>)
    requires Head(t) == 0x7B
    ensures r.Some? ==> |r.value.1| <= |t|
    decreases |t|, 2
  {
    var t1 := SkipSpaces(t[1..]);
    if Head(t1) == 0x7D then Some((Object([]), t1[1..]))
    else
      match ParseMembers(t1, nesting, [])
      case None => None
      case Some((ms, t2)) =>
        var t3 := SkipSpaces(t2);
        if Head(t3) != 0x7D then None else Some((Object(ms), t3[1..]))
  }

  function ParseColonValue(t: seq<byte>, nesting: nat): (r: Result<Value>)
    ensures r.Some? ==> |r.value.1| <= |t|
    decreases |t|, 4
  {
    var t1 := SkipSpaces(t);
    if Head(t1) != 0x3A then None else ParseValue(t1[1..], nesting)
  }

  /** A key with its colon and its value. */
  function ParsePair(t: seq<byte>, nesting: nat): (r: Result<Member<Value>>)
    ensures r.Some? ==> |r.value.1| <= |t|
    decreases |t|, 4
  {
    match QuotedString(t)
    case None => None
    case Some((key, t1)) =>
      if !NulFree(key) then None
      else
        match ParseColonValue(t1, nesting)
        case None => None
        case Some((v, t2)) => Some((Member(key, v), t2))
  }

  /** The next pair, added to the members so far; a key that is already there is an error. */
  function ParseMember(t: seq<byte>, nesting: nat, ms: seq<Member<Value>>): (r: Result<seq<Member<Value>>>)
    ensures r.Some? ==> |r.value.1| <= |t|
    decreases |t|, 5
  {
    match ParsePair(t, nesting)
    case None => None
    case Some((m, t1)) =>
      match Add(ms, m.key, m.value)
      case None => None
      case Some(ms') => Some((ms', t1))
  }

  /** The loop of the object parser, with the members added so far. */
  function ParseMembers(t: seq<byte>, nesting: nat, ms: seq<Member<Value>>): (r: Result<seq<Member<Value>>>)
    ensures r.Some? ==> |r.value.1| <= |t|
    decreases |t|, 6
  {
    if Head(t) == 0 then Some((ms, t))
    else
      match ParseMember(t, nesting, ms)
      case None => None
      case Some((ms', t1)) =>
        var (more, t2) := Separator(t1, 0x7D);
        if more then ParseMembers(t2, nesting, ms') else Some((ms', t2))
  }

  /** Behind the byte order mark, if there is one. */
  function SkipMark(t: seq<byte>): seq<byte> {
    if |t| >= 3 && t[0] == 0xEF && t[1] == 0xBB && t[2] == 0xBF then t[3..] else t
  }

  /** The entry point: an optional byte order mark, then a value; what follows is ignored. */
  function ParseText(t: seq<byte>): (r: Option<Value>) {
    match ParseValue(SkipMark(t), 0)
    case None => None
    case Some((v, _)) => Some(v)
  }
}
