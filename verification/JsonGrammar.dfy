/**
 * The language of the value parser.  `Writes` relates a text to the value that it is a text of,
 * without a cursor; the parser accepts exactly these texts, and a lone minus sign.
 */
module JsonGrammar {
  import opened Bytes
  import opened Members
  import opened Values
  import opened JsonStrings
  import opened StringCodec
  import opened Serializer
  import opened Parser
  import opened RoundTrip
  import opened DepthLimit
  import opened Reparse

  // ---- The grammar ------------------------------------------------------------

  ghost predicate Spaces(w: seq<byte>) {
    forall i :: 0 <= i < |w| ==> IsBlank(w[i])
  }

  ghost predicate LiteralOf(t: seq<byte>, us: seq<GoodUnit>, s: seq<byte>) {
    t == [QUOTE] + Text(us) + [QUOTE] && s == Meaning(us)
  }

  ghost predicate IsLiteral(t: seq<byte>, s: seq<byte>) {
    exists us :: LiteralOf(t, us, s)
  }

  /** `t` is a text of `v`, from its first byte to its last. */
  ghost predicate Writes(t: seq<byte>, v: Value)
    decreases v, 0
  {
    match v
    case Null => t == Ascii("null")
    case Bool(b) => t == if b then Ascii("true") else Ascii("false")
    case Number(n) => t == Decimal(n)
    case String(s) => IsLiteral(t, s)
    case Array(items) => exists body, tail :: WritesItems(body, items) && Closes(t, OPEN_ARRAY, body, tail, |items|)
    case Object(ms) => exists body, tail :: WritesMembers(body, ms) && Closes(t, OPEN_OBJECT, body, tail, |ms|)
  }

  /** What may stand before the closing bracket: one more comma, if there is an element. */
  ghost predicate Tail(t: seq<byte>, count: nat) {
    if count == 0 then Spaces(t) else t == [] || (t[0] == COMMA && Spaces(t[1..]))
  }

  /** A body in its brackets; the closing one is two behind the opening one in ASCII. */
  ghost predicate Closes(t: seq<byte>, open: byte, body: seq<byte>, tail: seq<byte>, count: nat)
    requires open == OPEN_ARRAY || open == OPEN_OBJECT
  {
    Tail(tail, count) && t == [open] + body + tail + [open + 2]
  }

  /** A text with spaces around it. */
  ghost predicate Padded(t: seq<byte>, a: seq<byte>, x: seq<byte>, b: seq<byte>) {
    Spaces(a) && Spaces(b) && t == a + x + b
  }

  ghost predicate WritesItem(t: seq<byte>, v: Value)
    decreases v, 1
  {
    exists a, x, b :: Padded(t, a, x, b) && Writes(x, v)
  }

  /** Two texts with one byte between them. */
  ghost predicate Joined(t: seq<byte>, p: seq<byte>, between: byte, q: seq<byte>) {
    t == p + [between] + q
  }

  ghost predicate WritesItems(t: seq<byte>, items: seq<Value>)
    decreases items, 2
  {
    if |items| == 0 then t == []
    else if |items| == 1 then WritesItem(t, items[0])
    else exists p, q :: Joined(t, p, COMMA, q) && WritesItem(p, items[0]) && WritesItems(q, items[1..])
  }

  ghost predicate WritesKey(t: seq<byte>, key: seq<byte>) {
    exists a, k, b :: Padded(t, a, k, b) && IsLiteral(k, key)
  }

  ghost predicate WritesMember(t: seq<byte>, m: Member<Value>)
    decreases m, 2
  {
    exists k, y :: Joined(t, k, COLON, y) && WritesKey(k, m.key) && WritesItem(y, m.value)
  }

  ghost predicate WritesMembers(t: seq<byte>, ms: seq<Member<Value>>)
    decreases ms, 3
  {
    if |ms| == 0 then t == []
    else if |ms| == 1 then WritesMember(t, ms[0])
    else exists p, q :: Joined(t, p, COMMA, q) && WritesMember(p, ms[0]) && WritesMembers(q, ms[1..])
  }

  /** A minus sign that no number follows: it stands for zero, and is not consumed. */
  ghost predicate LoneMinus(t: seq<byte>) {
    Head(t) == 0x2D && var b := Head(t[1..]);
    !(0x30 <= b <= 0x39) && b != 0x2E && b != 0x49 && b != 0x69 && b != 0x4E && b != 0x6E
  }

  /** A number must end where the parser stops behind it. */
  ghost predicate ReadsNumber(x: seq<byte>, n: int, rest: seq<byte>) {
    (x == Decimal(n) && NumberEnds(rest)) || (x == [] && n == 0 && LoneMinus(rest))
  }

  /** The parser reads `v` from `x` when `rest` follows. */
  ghost predicate Reads(x: seq<byte>, v: Value, rest: seq<byte>) {
    if v.Number? then ReadsNumber(x, v.n, rest) else Writes(x, v)
  }

  // ---- Pieces of a text -----------------------------------------------------------

  lemma PaddedMore(c: seq<byte>, t: seq<byte>, a: seq<byte>, x: seq<byte>, b: seq<byte>)
    requires Spaces(c) && Padded(t, a, x, b)
    ensures Padded(c + t, c + a, x, b)
  {
    Regroup(c, a, x, b);
  }

  lemma PaddedAfter(x: seq<byte>, b: seq<byte>)
    requires Spaces(b)
    ensures Padded(x + b, [], x, b)
  {
    assert [] + x + b == x + b;
  }

  lemma JoinedMore(c: seq<byte>, t: seq<byte>, p: seq<byte>, between: byte, q: seq<byte>)
    requires Joined(t, p, between, q)
    ensures Joined(c + t, c + p, between, q)
  {
    Regroup(c, p, [between], q);
  }

  lemma JoinedThen(t: seq<byte>, p: seq<byte>, between: byte, q: seq<byte>, end: seq<byte>)
    requires Joined(t, p, between, q)
    ensures t + end == p + ([between] + (q + end))
  {
  }

  // ---- Spaces and separators ----------------------------------------------------

  lemma {:induction false} SkipSplit(t: seq<byte>) returns (w: seq<byte>)
    ensures Spaces(w) && t == w + SkipSpaces(t)
  {
    if |t| > 0 && IsSpace(t[0]) {
      var w' := SkipSplit(t[1..]);
      w := [t[0]] + w';
      assert t == [t[0]] + t[1..];
    } else {
      w := [];
    }
  }

  /** Where the spaces end: all bytes before it are blank, and none stands there. */
  lemma SkipExactly(t: seq<byte>, r: seq<byte>)
    ensures SkipSpaces(t) == r <==> !IsBlank(Head(r)) && exists w :: Spaces(w) && t == w + r
  {
    if SkipSpaces(t) == r {
      var w := SkipSplit(t);
    }
    forall w | !IsBlank(Head(r)) && Spaces(w) && t == w + r ensures SkipSpaces(t) == r {
      SkipAllSpaces(w, r);
    }
  }

  lemma SpacesEnd(b: seq<byte>, t: seq<byte>)
    requires Spaces(b) && NumberEnds(t)
    ensures NumberEnds(b + t)
  {
    if |b| == 0 {
      assert b + t == t;
    } else {
      assert (b + t)[0] == b[0];
    }
  }

  lemma SeparatorMore(b: seq<byte>, t: seq<byte>, close: byte)
    requires Spaces(b) && Head(SkipSpaces(t)) != close
    ensures Separator(b + ([COMMA] + t), close) == (true, SkipSpaces(t))
  {
    SkipAllSpaces(b, [COMMA] + t);
    assert ([COMMA] + t)[1..] == t;
  }

  lemma SeparatorLast(b: seq<byte>, tail: seq<byte>, close: byte, rest: seq<byte>)
    requires Spaces(b) && Tail(tail, 1) && (close == CLOSE_ARRAY || close == CLOSE_OBJECT)
    ensures Separator(b + (tail + ([close] + rest)), close) == (false, [close] + rest)
    ensures NumberEnds(b + (tail + ([close] + rest)))
  {
    var end := [close] + rest;
    SpacesEnd(b, tail + end);
    SkipAllSpaces(b, tail + end);
    if tail == [] {
      assert tail + end == end;
    } else {
      assert (tail + end)[1..] == tail[1..] + end;
      SkipAllSpaces(tail[1..], end);
    }
  }

  /** `t` is `p` and a separator `c`, a comma with an element behind it or all up to the bracket. */
  ghost predicate Ends(t: seq<byte>, p: seq<byte>, c: seq<byte>, separated: (bool, seq<byte>)) {
    var (more, rest) := separated;
    if more then Spaces(c) && t == p + ([COMMA] + (c + rest))
    else SkipSpaces(rest) == rest && Tail(c, 1) && t == p + (c + rest)
  }

  /** Behind the separator there is an element or the bracket. */
  ghost predicate EndsWell(separated: (bool, seq<byte>), close: byte) {
    separated.0 || Head(SkipSpaces(separated.1)) == close
  }

  lemma EndsLater(a: seq<byte>, t: seq<byte>, p: seq<byte>, c: seq<byte>, separated: (bool, seq<byte>))
    requires Ends(t, p, c, separated)
    ensures Ends(a + t, a + p, c, separated)
  {
    var (more, rest) := separated;
    var r := if more then [COMMA] + (c + rest) else c + rest;
    assert a + (p + r) == a + p + r;
  }

  /** What the separator of a well-ended element takes. */
  lemma SeparatorSound(t: seq<byte>, close: byte) returns (b: seq<byte>, c: seq<byte>)
    requires close == CLOSE_ARRAY || close == CLOSE_OBJECT
    requires EndsWell(Separator(t, close), close)
    ensures Spaces(b) && Head(SkipSpaces(t)) != 0x2D
    ensures Ends(t, b, c, Separator(t, close))
  {
    b := SkipSplit(t);
    var t1 := SkipSpaces(t);
    SkipTwice(t);
    if Head(t1) == COMMA {
      c := SkipSplit(t1[1..]);
      SkipTwice(t1[1..]);
      CommaBefore(t1, c, SkipSpaces(t1[1..]));
      if !Separator(t, close).0 {
        c := [COMMA] + c;
      }
    } else {
      c := [];
      assert c + t1 == t1;
    }
  }

  lemma CommaBefore(t: seq<byte>, c: seq<byte>, rest: seq<byte>)
    requires Head(t) == COMMA && t[1..] == c + rest
    ensures t == [COMMA] + (c + rest) == [COMMA] + c + rest && ([COMMA] + c)[1..] == c
  {
    assert t == [COMMA] + t[1..];
  }

  // ---- Every text of the grammar is accepted ------------------------------------

  lemma {:induction false} WritesStarts(t: seq<byte>, v: Value)
    requires Writes(t, v)
    ensures |t| > 0 && Starts(t[0])
  {
    if v.Number? {
      FirstByte(v, 0, Format(false, false));
    }
  }

  lemma LiteralTextRead(t: seq<byte>, s: seq<byte>, rest: seq<byte>)
    requires IsLiteral(t, s)
    ensures QuotedString(t + rest) == Some((s, rest))
  {
    var us :| LiteralOf(t, us, s);
    LiteralRead(us, rest);
  }

  lemma {:induction false} WrittenParses(x: seq<byte>, v: Value, nesting: nat, rest: seq<byte>)
    requires Writes(x, v) && Readable(v, nesting) && (v.Number? ==> NumberEnds(rest))
    ensures ParseValue(x + rest, nesting) == Some((v, rest))
    decreases v, 1
  {
    var t := x + rest;
    WritesStarts(x, v);
    assert SkipSpaces(t) == t;
    match v
    case Null => assert t[4..] == rest;
    case Bool(b) => assert t[if b then 4 else 5..] == rest;
    case Number(n) => NumberRoundTrip(n, rest);
    case String(s) => LiteralTextRead(x, s, rest);
    case Array(items) => ArrayParses(x, items, nesting, rest);
    case Object(ms) => ObjectParses(x, ms, nesting, rest);
  }

  lemma Enclosing(open: byte, body: seq<byte>, tail: seq<byte>, close: byte, rest: seq<byte>)
    ensures [open] + body + tail + [close] + rest == [open] + (body + (tail + ([close] + rest)))
  {
  }

  lemma ArrayParses(x: seq<byte>, items: seq<Value>, nesting: nat, rest: seq<byte>)
    requires Writes(x, Array(items)) && Readable(Array(items), nesting)
    ensures ParseArray(x + rest, nesting + 1) == Some((Array(items), rest))
    decreases Array(items), 0
  {
    var body, tail :| WritesItems(body, items) && Closes(x, OPEN_ARRAY, body, tail, |items|);
    var t := body + (tail + ([CLOSE_ARRAY] + rest));
    Enclosing(OPEN_ARRAY, body, tail, CLOSE_ARRAY, rest);
    assert ([OPEN_ARRAY] + t)[1..] == t;
    if |items| == 0 {
      EmptyBody(body, tail, CLOSE_ARRAY, rest);
    } else {
      ItemsParse(body, items, nesting + 1, tail, rest);
      ArrayStep(t, nesting + 1, SkipSpaces(t), items, rest);
    }
  }

  lemma EmptyBody(body: seq<byte>, tail: seq<byte>, close: byte, rest: seq<byte>)
    requires body == [] && Spaces(tail) && !IsSpace(close)
    ensures SkipSpaces(body + (tail + ([close] + rest))) == [close] + rest
    ensures ([close] + rest)[1..] == rest
  {
    assert body + (tail + ([close] + rest)) == tail + ([close] + rest);
    SkipAllSpaces(tail, [close] + rest);
  }

  lemma SkipToItem(a: seq<byte>, x: seq<byte>, b: seq<byte>, rest: seq<byte>)
    requires Spaces(a) && |x| > 0 && !IsSpace(x[0])
    ensures SkipSpaces(a + x + b + rest) == x + (b + rest)
  {
    assert a + x + b + rest == a + (x + (b + rest));
    SkipAllSpaces(a, x + (b + rest));
  }

  /** An element with its spaces is parsed; the spaces behind it are left. */
  lemma ItemParses(t: seq<byte>, v: Value, nesting: nat, rest: seq<byte>) returns (b: seq<byte>)
    requires WritesItem(t, v) && Readable(v, nesting) && NumberEnds(rest)
    ensures Spaces(b) && Starts(Head(SkipSpaces(t + rest)))
    ensures ParseValue(SkipSpaces(t + rest), nesting) == Some((v, b + rest))
    decreases v, 2
  {
    var a, x, b' :| Padded(t, a, x, b') && Writes(x, v);
    b := b';
    WritesStarts(x, v);
    SkipToItem(a, x, b, rest);
    SpacesEnd(b, rest);
    WrittenParses(x, v, nesting, b + rest);
  }

  lemma {:induction false} ItemsParse(t: seq<byte>, items: seq<Value>, nesting: nat, tail: seq<byte>, rest: seq<byte>)
    requires |items| > 0 && WritesItems(t, items) && Tail(tail, |items|)
    requires forall i :: 0 <= i < |items| ==> Readable(items[i], nesting)
    ensures var t' := SkipSpaces(t + (tail + ([CLOSE_ARRAY] + rest)));
      Starts(Head(t')) && ParseItems(t', nesting) == Some((items, [CLOSE_ARRAY] + rest))
    decreases items, 4
  {
    var v, end := items[0], tail + ([CLOSE_ARRAY] + rest);
    if |items| == 1 {
      LastItemParses(t, v, nesting, tail, rest);
      assert [v] == items;
    } else {
      var vs := items[1..];
      assert [v] + vs == items;
      var p, q :| Joined(t, p, COMMA, q) && WritesItem(p, v) && WritesItems(q, vs);
      JoinedThen(t, p, COMMA, q, end);
      ItemsParse(q, vs, nesting, tail, rest);
      NextItemParses(p, v, nesting, q + end);
    }
  }

  lemma {:induction false} LastItemParses(t: seq<byte>, v: Value, nesting: nat, tail: seq<byte>, rest: seq<byte>)
    requires WritesItem(t, v) && Tail(tail, 1) && Readable(v, nesting)
    ensures var t' := SkipSpaces(t + (tail + ([CLOSE_ARRAY] + rest)));
      Starts(Head(t')) && ParseItems(t', nesting) == Some(([v], [CLOSE_ARRAY] + rest))
    decreases v, 3
  {
    var end := tail + ([CLOSE_ARRAY] + rest);
    SeparatorLast([], tail, CLOSE_ARRAY, rest);
    assert [] + end == end;
    var b := ItemParses(t, v, nesting, end);
    SeparatorLast(b, tail, CLOSE_ARRAY, rest);
    LastItem(SkipSpaces(t + end), nesting, v, b + end, [CLOSE_ARRAY] + rest);
  }

  lemma {:induction false} NextItemParses(p: seq<byte>, v: Value, nesting: nat, more: seq<byte>)
    requires WritesItem(p, v) && Readable(v, nesting) && Head(SkipSpaces(more)) != CLOSE_ARRAY
    requires ParseItems(SkipSpaces(more), nesting).Some?
    ensures var t', (vs, rest) := SkipSpaces(p + ([COMMA] + more)), ParseItems(SkipSpaces(more), nesting).value;
      Starts(Head(t')) && ParseItems(t', nesting) == Some(([v] + vs, rest))
    decreases v, 3
  {
    var b := ItemParses(p, v, nesting, [COMMA] + more);
    SeparatorMore(b, more, CLOSE_ARRAY);
    NextItem(SkipSpaces(p + ([COMMA] + more)), nesting, v, b + ([COMMA] + more), SkipSpaces(more));
  }

  lemma ObjectParses(x: seq<byte>, ms: seq<Member<Value>>, nesting: nat, rest: seq<byte>)
    requires Writes(x, Object(ms)) && Readable(Object(ms), nesting)
    ensures ParseObject(x + rest, nesting + 1) == Some((Object(ms), rest))
    decreases Object(ms), 0
  {
    var body, tail :| WritesMembers(body, ms) && Closes(x, OPEN_OBJECT, body, tail, |ms|);
    var t := body + (tail + ([CLOSE_OBJECT] + rest));
    Enclosing(OPEN_OBJECT, body, tail, CLOSE_OBJECT, rest);
    assert ([OPEN_OBJECT] + t)[1..] == t;
    if |ms| == 0 {
      EmptyBody(body, tail, CLOSE_OBJECT, rest);
    } else {
      assert [] + ms == ms;
      MembersParse([], body, ms, nesting + 1, tail, rest);
      ObjectStep(t, nesting + 1, SkipSpaces(t), ms, rest);
    }
  }

  lemma KeyParses(t: seq<byte>, key: seq<byte>, rest: seq<byte>) returns (b: seq<byte>)
    requires WritesKey(t, key)
    ensures Spaces(b) && Head(SkipSpaces(t + rest)) == QUOTE
    ensures QuotedString(SkipSpaces(t + rest)) == Some((key, b + rest))
  {
    var a, k, b' :| Padded(t, a, k, b') && IsLiteral(k, key);
    b := b';
    SkipToItem(a, k, b, rest);
    LiteralTextRead(k, key, b + rest);
  }

  lemma ColonParses(b: seq<byte>, y: seq<byte>, v: Value, nesting: nat, rest: seq<byte>) returns (d: seq<byte>)
    requires Spaces(b) && WritesItem(y, v) && Readable(v, nesting) && NumberEnds(rest)
    ensures Spaces(d) && ParseColonValue(b + ([COLON] + (y + rest)), nesting) == Some((v, d + rest))
    decreases v, 3
  {
    d := ItemParses(y, v, nesting, rest);
    SkipAllSpaces(b, [COLON] + (y + rest));
    assert ([COLON] + (y + rest))[1..] == y + rest;
    SkipTwice(y + rest);
    assert ParseValue(y + rest, nesting) == ParseValue(SkipSpaces(y + rest), nesting);
  }

  lemma MemberParses(t: seq<byte>, m: Member<Value>, nesting: nat, done: seq<Member<Value>>, rest: seq<byte>)
    returns (d: seq<byte>)
    requires WritesMember(t, m) && Readable(m.value, nesting) && NumberEnds(rest) && !HasKey(done, m.key)
    ensures Spaces(d) && Head(SkipSpaces(t + rest)) == QUOTE
    ensures ParseMember(SkipSpaces(t + rest), nesting, done) == Some((done + [m], d + rest))
    decreases m, 4
  {
    var k, y :| Joined(t, k, COLON, y) && WritesKey(k, m.key) && WritesItem(y, m.value);
    JoinedThen(t, k, COLON, y, rest);
    var b := KeyParses(k, m.key, [COLON] + (y + rest));
    d := ColonParses(b, y, m.value, nesting, rest);
  }

  lemma {:induction false} MembersParse(done: seq<Member<Value>>, t: seq<byte>, ms: seq<Member<Value>>, nesting: nat,
      tail: seq<byte>, rest: seq<byte>)
    requires |ms| > 0 && WritesMembers(t, ms) && Tail(tail, |ms|) && Unique(done + ms)
    requires forall i :: 0 <= i < |ms| ==> Readable(ms[i].value, nesting)
    ensures var t' := SkipSpaces(t + (tail + ([CLOSE_OBJECT] + rest)));
      Head(t') == QUOTE && ParseMembers(t', nesting, done) == Some((done + ms, [CLOSE_OBJECT] + rest))
    decreases ms, 4
  {
    var end, m := tail + ([CLOSE_OBJECT] + rest), ms[0];
    NotYetAdded(done, ms);
    if |ms| == 1 {
      SeparatorLast([], tail, CLOSE_OBJECT, rest);
      assert [] + end == end;
      var d := MemberParses(t, m, nesting, done, end);
      SeparatorLast(d, tail, CLOSE_OBJECT, rest);
      MembersStep(SkipSpaces(t + end), nesting, done, done + [m], d + end, false, [CLOSE_OBJECT] + rest);
      assert done + [m] == done + ms;
    } else {
      var p, q :| Joined(t, p, COMMA, q) && WritesMember(p, m) && WritesMembers(q, ms[1..]);
      JoinedThen(t, p, COMMA, q, end);
      var d := MemberParses(p, m, nesting, done, [COMMA] + (q + end));
      MembersParse(done + [m], q, ms[1..], nesting, tail, rest);
      SeparatorMore(d, q + end, CLOSE_OBJECT);
      MembersStep(SkipSpaces(t + end), nesting, done, done + [m], d + ([COMMA] + (q + end)), true, SkipSpaces(q + end));
    }
  }

  // ---- Every accepted text is of the grammar -------------------------------------

  /** Digits without a superfluous zero are the digits of their value. */
  lemma {:induction false} DigitsUnique(ds: seq<byte>)
    requires |ds| > 0 && (forall i :: 0 <= i < |ds| ==> IsDigit(ds[i])) && (|ds| > 1 ==> ds[0] != 0x30)
    ensures Digits(DigitsValue(ds)) == ds
    ensures ds[0] != 0x30 ==> DigitsValue(ds) > 0
  {
    var front, last := ds[..|ds| - 1], ds[|ds| - 1];
    assert IsDigit(last) && ds == front + [last];
    if |front| > 0 {
      DigitsUnique(front);
      assert DigitsValue(ds) / 10 == DigitsValue(front) && DigitsValue(ds) % 10 == last - 0x30;
    } else {
      assert DigitsValue(front) == 0;
    }
  }

  lemma SignedText(negative: bool, ds: seq<byte>, m: int)
    requires |ds| > 0 && (forall i :: 0 <= i < |ds| ==> IsDigit(ds[i])) && (|ds| > 1 || negative ==> ds[0] != 0x30)
    requires m == DigitsValue(ds)
    ensures negative ==> Decimal(-m) == [0x2D] + ds
    ensures !negative ==> Decimal(m) == ds
  {
    DigitsUnique(ds);
  }

  lemma NumberSound(t: seq<byte>) returns (x: seq<byte>)
    requires ParseNumber(t).Some? && (Head(t) == 0x2D || IsDigit(Head(t)))
    ensures var (v, rest) := ParseNumber(t).value; t == x + rest && v.Number? && ReadsNumber(x, v.n, rest)
  {
    var sign := if Head(t) == 0x2D then 1 else 0;
    var k := DigitCount(t[sign..]);
    if k == 0 {
      x := [];
      assert t == x + t;
    } else {
      x := NumberDigits(t, sign, k);
    }
  }

  lemma NumberDigits(t: seq<byte>, sign: nat, k: nat) returns (x: seq<byte>)
    requires ParseNumber(t).Some? && |t| > 0 && sign == (if t[0] == 0x2D then 1 else 0)
    requires k == DigitCount(t[sign..]) && k > 0
    ensures var (v, rest) := ParseNumber(t).value; t == x + rest && v.Number? && x == Decimal(v.n) && NumberEnds(rest)
  {
    x := t[..sign + k];
    var ds := t[sign..sign + k];
    NumberShape(t, sign, k, ds);
    LeadingZero(t, sign, k, ds);
    CutSign(t, sign, k);
    NumberIs(t[..sign], ds);
  }

  lemma CutSign(t: seq<byte>, sign: nat, k: nat)
    requires sign + k <= |t| && |t| > 0 && sign == (if t[0] == 0x2D then 1 else 0)
    ensures t[..sign] == (if sign == 1 then [0x2D] else [])
    ensures t[..sign + k] == t[..sign] + t[sign..sign + k] && t == t[..sign + k] + t[sign + k..]
  {
  }

  lemma NumberShape(t: seq<byte>, sign: nat, k: nat, ds: seq<byte>)
    requires ParseNumber(t).Some? && |t| > 0 && sign == (if t[0] == 0x2D then 1 else 0)
    requires k == DigitCount(t[sign..]) && k > 0 && ds == t[sign..sign + k]
    ensures ds == t[sign..][..k] && forall i :: 0 <= i < |ds| ==> IsDigit(ds[i])
    ensures NumberOf(sign == 1, ds).Some? && NumberEnds(t[sign + k..])
    ensures ParseNumber(t).value == (NumberOf(sign == 1, ds).value, t[sign + k..])
  {
    assert ds == t[sign..][..k] && t[sign + k..] == t[sign..][k..];
  }

  lemma NumberIs(sign: seq<byte>, ds: seq<byte>)
    requires sign == [] || sign == [0x2D]
    requires |ds| > 0 && (forall i :: 0 <= i < |ds| ==> IsDigit(ds[i])) && (|ds| > 1 || |sign| == 1 ==> ds[0] != 0x30)
    requires NumberOf(|sign| == 1, ds).Some?
    ensures sign + ds == Decimal(NumberOf(|sign| == 1, ds).value.n)
  {
    SignedText(|sign| == 1, ds, DigitsValue(ds));
    assert [] + ds == ds;
  }

  lemma LeadingZero(t: seq<byte>, sign: nat, k: nat, ds: seq<byte>)
    requires ParseNumber(t).Some? && |t| > 0 && sign == (if t[0] == 0x2D then 1 else 0)
    requires k == DigitCount(t[sign..]) && k > 0 && ds == t[sign..sign + k] == t[sign..][..k]
    ensures k > 1 || sign == 1 ==> ds[0] != 0x30
  {
    if k > 1 {
      assert IsDigit(ds[1]) && t[sign + 1] == ds[1];
      assert t[..sign + k][sign + 1] == ds[1];
    } else if t[sign] == 0x30 {
      assert ds == [0x30];
      assert DigitsValue(ds[..0]) == 0;
    }
  }

  lemma CutQuotes(t: seq<byte>, body: seq<byte>, n: nat)
    requires n + 2 <= |t| && t[0] == QUOTE && t[1..][..n] == body && t[1..][n] == QUOTE
    ensures t[..n + 2] == [QUOTE] + body + [QUOTE] && t == t[..n + 2] + t[n + 2..]
  {
  }

  lemma LiteralSound(t: seq<byte>) returns (k: seq<byte>)
    requires QuotedString(t).Some?
    ensures var (s, rest) := QuotedString(t).value; t == k + rest && IsLiteral(k, s)
  {
    var n := SkipBody(t[1..]).value;
    var us := DecodeSound(t[1..], n, QuotedString(t).value.0);
    k := t[..n + 2];
    CutQuotes(t, Text(us), n);
    assert LiteralOf(k, us, QuotedString(t).value.0);
  }

  lemma BooleanSound(t: seq<byte>) returns (x: seq<byte>)
    requires ParseBoolean(t).Some?
    ensures var (v, rest) := ParseBoolean(t).value; t == x + rest && v.Bool? && Writes(x, v)
  {
    x := if Ascii("true") <= t then Ascii("true") else Ascii("false");
  }

  lemma NullSound(t: seq<byte>) returns (x: seq<byte>)
    requires ParseNull(t).Some?
    ensures var (v, rest) := ParseNull(t).value; t == x + rest && v == Null && Writes(x, v)
  {
    x := Ascii("null");
  }

  lemma {:induction false} ParsedWritten(t: seq<byte>, nesting: nat) returns (w: seq<byte>, x: seq<byte>)
    requires ParseValue(t, nesting).Some?
    ensures var (v, rest) := ParseValue(t, nesting).value; Spaces(w) && t == w + x + rest && Reads(x, v, rest)
    decreases |t|, 3
  {
    w := SkipSplit(t);
    x := ValueWritten(t, nesting);
    var rest := ParseValue(t, nesting).value.1;
    assert w + (x + rest) == w + x + rest;
  }

  lemma {:induction false} ValueWritten(t: seq<byte>, nesting: nat) returns (x: seq<byte>)
    requires ParseValue(t, nesting).Some?
    ensures var (v, rest) := ParseValue(t, nesting).value; SkipSpaces(t) == x + rest && Reads(x, v, rest)
    decreases |t|, 2
  {
    var t1 := SkipSpaces(t);
    var c := Head(t1);
    if c == OPEN_OBJECT {
      x := ObjectWritten(t1, nesting + 1);
    } else if c == OPEN_ARRAY {
      x := ArrayWritten(t1, nesting + 1);
    } else if c == QUOTE {
      x := LiteralSound(t1);
    } else if c == 0x2D || IsDigit(c) {
      x := NumberSound(t1);
    } else if c == 0x6E {
      x := NullSound(t1);
    } else {
      x := BooleanSound(t1);
    }
  }

  lemma {:induction false} SpacesBeforeItem(c: seq<byte>, t: seq<byte>, v: Value)
    requires Spaces(c) && WritesItem(t, v)
    ensures WritesItem(c + t, v)
  {
    var a, x, b :| Padded(t, a, x, b) && Writes(x, v);
    PaddedMore(c, t, a, x, b);
  }

  lemma {:induction false} FirstItem(p: seq<byte>, v: Value, q: seq<byte>, items: seq<Value>)
    requires WritesItem(p, v) && |items| > 0 && WritesItems(q, items)
    ensures WritesItems(p + [COMMA] + q, [v] + items)
  {
    assert ([v] + items)[1..] == items;
    assert Joined(p + [COMMA] + q, p, COMMA, q);
  }

  lemma {:induction false} SpacesBeforeItems(c: seq<byte>, t: seq<byte>, items: seq<Value>)
    requires Spaces(c) && |items| > 0 && WritesItems(t, items)
    ensures WritesItems(c + t, items)
  {
    if |items| == 1 {
      SpacesBeforeItem(c, t, items[0]);
    } else {
      var p, q :| Joined(t, p, COMMA, q) && WritesItem(p, items[0]) && WritesItems(q, items[1..]);
      SpacesBeforeItem(c, p, items[0]);
      FirstItem(c + p, items[0], q, items[1..]);
      assert [items[0]] + items[1..] == items;
      JoinedMore(c, t, p, COMMA, q);
    }
  }

  lemma {:induction false} ArrayCloses(body: seq<byte>, tail: seq<byte>, items: seq<Value>)
    requires WritesItems(body, items) && Tail(tail, |items|)
    ensures Writes([OPEN_ARRAY] + body + tail + [CLOSE_ARRAY], Array(items))
  {
    assert Closes([OPEN_ARRAY] + body + tail + [CLOSE_ARRAY], OPEN_ARRAY, body, tail, |items|);
  }

  lemma Closed(t: seq<byte>, body: seq<byte>, tail: seq<byte>, close: byte, rest: seq<byte>)
    requires |t| > 0 && t[1..] == body + (tail + ([close] + rest))
    ensures t == [t[0]] + body + tail + [close] + rest
  {
    Enclosing(t[0], body, tail, close, rest);
    assert t == [t[0]] + t[1..];
  }

  lemma ClosedEmpty(t: seq<byte>, w: seq<byte>, close: byte, rest: seq<byte>)
    requires |t| > 0 && t[1..] == w + ([close] + rest)
    ensures t == [t[0]] + [] + w + [close] + rest
  {
    assert [] + (w + ([close] + rest)) == w + ([close] + rest);
    Closed(t, [], w, close, rest);
  }

  lemma ClosedBody(t: seq<byte>, w: seq<byte>, body: seq<byte>, tail: seq<byte>, close: byte, rest: seq<byte>)
    requires |t| > 0 && t[1..] == w + (body + (tail + ([close] + rest)))
    ensures t == [t[0]] + (w + body) + tail + [close] + rest
  {
    assert w + (body + (tail + ([close] + rest))) == w + body + (tail + ([close] + rest));
    Closed(t, w + body, tail, close, rest);
  }

  lemma {:induction false} ArrayWritten(t: seq<byte>, nesting: nat) returns (x: seq<byte>)
    requires Head(t) == OPEN_ARRAY && ParseArray(t, nesting).Some?
    ensures var (v, rest) := ParseArray(t, nesting).value; t == x + rest && v.Array? && Writes(x, v)
    decreases |t|, 1
  {
    var w := SkipSplit(t[1..]);
    var t1 := SkipSpaces(t[1..]);
    var (v, rest) := ParseArray(t, nesting).value;
    if Head(t1) == CLOSE_ARRAY {
      x := [OPEN_ARRAY] + [] + w + [CLOSE_ARRAY];
      assert t1 == [CLOSE_ARRAY] + rest;
      ClosedEmpty(t, w, CLOSE_ARRAY, rest);
      ArrayCloses([], w, []);
    } else {
      var body, tail := ItemsWritten(t1, nesting);
      x := [OPEN_ARRAY] + (w + body) + tail + [CLOSE_ARRAY];
      assert SkipSpaces(ParseItems(t1, nesting).value.1) == [CLOSE_ARRAY] + rest;
      ClosedBody(t, w, body, tail, CLOSE_ARRAY, rest);
      SpacesBeforeItems(w, body, v.items);
      ArrayCloses(w + body, tail, v.items);
    }
  }

  /** One round of the item loop: an element, and the separator behind it. */
  lemma {:induction false} ItemWritten(t: seq<byte>, nesting: nat, close: byte) returns (p: seq<byte>, c: seq<byte>)
    requires ParseValue(t, nesting).Some? && (close == CLOSE_ARRAY || close == CLOSE_OBJECT)
    requires EndsWell(Separator(ParseValue(t, nesting).value.1, close), close)
    ensures WritesItem(p, ParseValue(t, nesting).value.0)
    ensures Ends(t, p, c, Separator(ParseValue(t, nesting).value.1, close))
    decreases |t|, 4
  {
    var (v, t1) := ParseValue(t, nesting).value;
    var w, x := ParsedWritten(t, nesting);
    var b, c' := SeparatorSound(t1, close);
    p, c := w + x + b, c';
    EndsLater(w + x, t1, b, c, Separator(t1, close));
    assert Padded(p, w, x, b);
    assert SkipSpaces(t1) == t1 || IsSpace(Head(t1));
  }

  lemma {:induction false} ItemsWritten(t: seq<byte>, nesting: nat) returns (body: seq<byte>, tail: seq<byte>)
    requires ParseItems(t, nesting).Some? && Head(SkipSpaces(ParseItems(t, nesting).value.1)) == CLOSE_ARRAY
    ensures var (items, rest) := ParseItems(t, nesting).value;
      |items| > 0 && WritesItems(body, items) && Tail(tail, |items|) && t == body + (tail + SkipSpaces(rest))
    decreases |t|, 5
  {
    var (v, t1) := ParseValue(t, nesting).value;
    var (more, t2) := Separator(t1, CLOSE_ARRAY);
    var p, c := ItemWritten(t, nesting, CLOSE_ARRAY);
    body, tail := p, c;
    if more {
      var body', tail' := ItemsWritten(t2, nesting);
      var (items, rest) := ParseItems(t2, nesting).value;
      ItemsJoin(p, v, c, body', items);
      body, tail := p + [COMMA] + (c + body'), tail';
      MoreRegroup(p, c, body', tail' + SkipSpaces(rest));
    }
  }

  lemma {:induction false} ItemsJoin(p: seq<byte>, v: Value, c: seq<byte>, q: seq<byte>, items: seq<Value>)
    requires WritesItem(p, v) && Spaces(c) && |items| > 0 && WritesItems(q, items)
    ensures WritesItems(p + [COMMA] + (c + q), [v] + items)
  {
    SpacesBeforeItems(c, q, items);
    FirstItem(p, v, c + q, items);
  }

  lemma MoreRegroup(p: seq<byte>, c: seq<byte>, body: seq<byte>, end: seq<byte>)
    ensures p + ([COMMA] + (c + (body + end))) == p + [COMMA] + (c + body) + end
  {
  }

  lemma SpacesBeforeKey(c: seq<byte>, t: seq<byte>, key: seq<byte>)
    requires Spaces(c) && WritesKey(t, key)
    ensures WritesKey(c + t, key)
  {
    var a, k, b :| Padded(t, a, k, b) && IsLiteral(k, key);
    PaddedMore(c, t, a, k, b);
  }

  lemma {:induction false} SpacesBeforeMember(c: seq<byte>, t: seq<byte>, m: Member<Value>)
    requires Spaces(c) && WritesMember(t, m)
    ensures WritesMember(c + t, m)
  {
    var k, y :| Joined(t, k, COLON, y) && WritesKey(k, m.key) && WritesItem(y, m.value);
    SpacesBeforeKey(c, k, m.key);
    JoinedMore(c, t, k, COLON, y);
  }

  lemma {:induction false} FirstMember(p: seq<byte>, m: Member<Value>, q: seq<byte>, ms: seq<Member<Value>>)
    requires WritesMember(p, m) && |ms| > 0 && WritesMembers(q, ms)
    ensures WritesMembers(p + [COMMA] + q, [m] + ms)
  {
    assert ([m] + ms)[1..] == ms;
    assert Joined(p + [COMMA] + q, p, COMMA, q);
  }

  lemma {:induction false} SpacesBeforeMembers(c: seq<byte>, t: seq<byte>, ms: seq<Member<Value>>)
    requires Spaces(c) && |ms| > 0 && WritesMembers(t, ms)
    ensures WritesMembers(c + t, ms)
  {
    if |ms| == 1 {
      SpacesBeforeMember(c, t, ms[0]);
    } else {
      var p, q :| Joined(t, p, COMMA, q) && WritesMember(p, ms[0]) && WritesMembers(q, ms[1..]);
      SpacesBeforeMember(c, p, ms[0]);
      FirstMember(c + p, ms[0], q, ms[1..]);
      assert [ms[0]] + ms[1..] == ms;
      JoinedMore(c, t, p, COMMA, q);
    }
  }

  /** `t` is the text of `ms` and what stands before `end`. */
  ghost predicate MembersText(t: seq<byte>, body: seq<byte>, tail: seq<byte>, ms: seq<Member<Value>>, end: seq<byte>) {
    |ms| > 0 && WritesMembers(body, ms) && Tail(tail, |ms|) && t == body + (tail + end)
  }

  lemma {:induction false} ObjectCloses(body: seq<byte>, tail: seq<byte>, ms: seq<Member<Value>>)
    requires WritesMembers(body, ms) && Tail(tail, |ms|)
    ensures Writes([OPEN_OBJECT] + body + tail + [CLOSE_OBJECT], Object(ms))
  {
    assert Closes([OPEN_OBJECT] + body + tail + [CLOSE_OBJECT], OPEN_OBJECT, body, tail, |ms|);
  }

  lemma {:induction false} ObjectIs(t: seq<byte>, w: seq<byte>, t1: seq<byte>, body: seq<byte>, tail: seq<byte>,
      ms: seq<Member<Value>>, rest: seq<byte>) returns (x: seq<byte>)
    requires Head(t) == OPEN_OBJECT && Spaces(w) && t[1..] == w + t1
    requires MembersText(t1, body, tail, ms, [CLOSE_OBJECT] + rest)
    ensures t == x + rest && Writes(x, Object(ms))
  {
    x := [OPEN_OBJECT] + (w + body) + tail + [CLOSE_OBJECT];
    ClosedBody(t, w, body, tail, CLOSE_OBJECT, rest);
    SpacesBeforeMembers(w, body, ms);
    ObjectCloses(w + body, tail, ms);
  }

  lemma {:induction false} ObjectWritten(t: seq<byte>, nesting: nat) returns (x: seq<byte>)
    requires Head(t) == OPEN_OBJECT && ParseObject(t, nesting).Some?
    ensures var (v, rest) := ParseObject(t, nesting).value; t == x + rest && v.Object? && Writes(x, v)
    decreases |t|, 1
  {
    var w := SkipSplit(t[1..]);
    var t1 := SkipSpaces(t[1..]);
    var (v, rest) := ParseObject(t, nesting).value;
    if Head(t1) == CLOSE_OBJECT {
      x := [OPEN_OBJECT] + [] + w + [CLOSE_OBJECT];
      assert t1 == [CLOSE_OBJECT] + rest;
      ClosedEmpty(t, w, CLOSE_OBJECT, rest);
      ObjectCloses([], w, []);
    } else {
      var (ms, t2) := ParseMembers(t1, nesting, []).value;
      assert SkipSpaces(t2) == [CLOSE_OBJECT] + rest;
      var ms', body, tail := MembersWritten(t1, nesting, [], ms, t2);
      assert [] + ms' == ms';
      x := ObjectIs(t, w, t1, body, tail, ms, rest);
    }
  }

  /** One round of the member loop: a pair, and the separator behind it. */
  lemma {:induction false} MemberWritten(t: seq<byte>, nesting: nat) returns (p: seq<byte>, c: seq<byte>)
    requires ParsePair(t, nesting).Some?
    requires EndsWell(Separator(ParsePair(t, nesting).value.1, CLOSE_OBJECT), CLOSE_OBJECT)
    ensures WritesMember(p, ParsePair(t, nesting).value.0)
    ensures Ends(t, p, c, Separator(ParsePair(t, nesting).value.1, CLOSE_OBJECT))
    decreases |t|, 4
  {
    var (m, rest) := ParsePair(t, nesting).value;
    var k := LiteralSound(t);
    var t1 := QuotedString(t).value.1;
    var b := SkipSplit(t1);
    var t2 := SkipSpaces(t1)[1..];
    var y, c' := ItemWritten(t2, nesting, CLOSE_OBJECT);
    p, c := k + b + [COLON] + y, c';
    BeforeColon(k, b, SkipSpaces(t1));
    EndsLater(k + b + [COLON], t2, y, c, Separator(rest, CLOSE_OBJECT));
    MemberIs(k, b, y, m);
  }

  lemma BeforeColon(k: seq<byte>, b: seq<byte>, t: seq<byte>)
    requires Head(t) == COLON
    ensures k + (b + t) == k + b + [COLON] + t[1..]
  {
    assert t == [COLON] + t[1..];
  }

  lemma {:induction false} MemberIs(k: seq<byte>, b: seq<byte>, y: seq<byte>, m: Member<Value>)
    requires IsLiteral(k, m.key) && Spaces(b) && WritesItem(y, m.value)
    ensures WritesMember(k + b + [COLON] + y, m)
  {
    KeyIs(k, b, m.key);
    assert Joined(k + b + [COLON] + y, k + b, COLON, y);
  }

  lemma KeyIs(k: seq<byte>, b: seq<byte>, key: seq<byte>)
    requires IsLiteral(k, key) && Spaces(b)
    ensures WritesKey(k + b, key)
  {
    PaddedAfter(k, b);
  }

  lemma {:induction false} MembersWritten(t: seq<byte>, nesting: nat, done: seq<Member<Value>>,
      all: seq<Member<Value>>, rest: seq<byte>) returns (ms: seq<Member<Value>>, body: seq<byte>, tail: seq<byte>)
    requires ParseMembers(t, nesting, done) == Some((all, rest)) && Head(SkipSpaces(rest)) == CLOSE_OBJECT
    ensures all == done + ms && MembersText(t, body, tail, ms, SkipSpaces(rest))
    decreases |t|, 5
  {
    MembersRound(t, nesting, done);
    var (m, t1) := ParsePair(t, nesting).value;
    var (more, t2) := Separator(t1, CLOSE_OBJECT);
    var p, c := MemberWritten(t, nesting);
    if more {
      var ms', body', tail' := MembersWritten(t2, nesting, done + [m], all, rest);
      ms, body, tail := [m] + ms', p + [COMMA] + (c + body'), tail';
      MembersMore(t, p, m, c, t2, body', tail', ms', SkipSpaces(rest));
      AppendRegroup(done, m, ms');
    } else {
      ms, body, tail := [m], p, c;
      MembersLast(t, p, m, c, t2);
    }
  }

  lemma AppendRegroup(done: seq<Member<Value>>, m: Member<Value>, ms: seq<Member<Value>>)
    ensures done + [m] + ms == done + ([m] + ms)
  {
  }

  lemma {:induction false} MembersLast(t: seq<byte>, p: seq<byte>, m: Member<Value>, c: seq<byte>, rest: seq<byte>)
    requires WritesMember(p, m) && Ends(t, p, c, (false, rest))
    ensures MembersText(t, p, c, [m], SkipSpaces(rest))
  {
  }

  lemma {:induction false} MembersMore(t: seq<byte>, p: seq<byte>, m: Member<Value>, c: seq<byte>, t': seq<byte>,
      body: seq<byte>, tail: seq<byte>, ms: seq<Member<Value>>, end: seq<byte>)
    requires WritesMember(p, m) && Ends(t, p, c, (true, t')) && MembersText(t', body, tail, ms, end)
    ensures MembersText(t, p + [COMMA] + (c + body), tail, [m] + ms, end)
  {
    SpacesBeforeMembers(c, body, ms);
    FirstMember(p, m, c + body, ms);
    MoreRegroup(p, c, body, tail + end);
  }

  /** What one round of the member loop says, when the bracket follows at the end. */
  lemma MembersRound(t: seq<byte>, nesting: nat, done: seq<Member<Value>>)
    requires ParseMembers(t, nesting, done).Some?
    requires Head(SkipSpaces(ParseMembers(t, nesting, done).value.1)) == CLOSE_OBJECT
    ensures ParsePair(t, nesting).Some?
    ensures var (m, t1) := ParsePair(t, nesting).value;
      var (more, t2) := Separator(t1, CLOSE_OBJECT);
      && EndsWell((more, t2), CLOSE_OBJECT) && (more ==> |t2| < |t|)
      && ParseMembers(t, nesting, done) ==
        if more then ParseMembers(t2, nesting, done + [m]) else Some((done + [m], t2))
  {
  }

  // ---- The language ----------------------------------------------------------------

  lemma LoneMinusParses(rest: seq<byte>, nesting: nat)
    requires LoneMinus(rest) && nesting <= MAX_NESTING
    ensures ParseValue(rest, nesting) == Some((Number(0), rest))
  {
    assert SkipSpaces(rest) == rest;
  }

  /** The parser accepts a text, with that value and that rest, exactly when the grammar says so. */
  lemma {:induction false} ParsesExactly(t: seq<byte>, nesting: nat, v: Value, rest: seq<byte>)
    ensures ParseValue(t, nesting) == Some((v, rest)) <==>
      Readable(v, nesting) && exists w, x :: Spaces(w) && Reads(x, v, rest) && t == w + x + rest
  {
    if ParseValue(t, nesting) == Some((v, rest)) {
      ParsedReadable(t, nesting);
      var w, x := ParsedWritten(t, nesting);
    }
    forall w, x | Readable(v, nesting) && Spaces(w) && Reads(x, v, rest) && t == w + x + rest
      ensures ParseValue(t, nesting) == Some((v, rest))
    {
      ReadsParses(w, x, v, nesting, rest);
    }
  }

  /** A text may start with the UTF-8 encoding of the byte order mark. */
  ghost predicate IsMark(m: seq<byte>) {
    m == [] || m == [0xEF, 0xBB, 0xBF]
  }

  /** `t` is a mark, spaces, a text of `v`, and whatever stands behind it. */
  ghost predicate StartsWith(t: seq<byte>, m: seq<byte>, w: seq<byte>, x: seq<byte>, v: Value, rest: seq<byte>) {
    IsMark(m) && Spaces(w) && Reads(x, v, rest) && t == m + w + x + rest
  }

  /** The texts that the entry point accepts; what stands behind the value is ignored. */
  lemma {:induction false} TextParsesExactly(t: seq<byte>, v: Value)
    ensures ParseText(t) == Some(v) <==>
      WellFormed(v) && Fits(v, 2048) && exists m, w, x, rest :: StartsWith(t, m, w, x, v, rest)
  {
    if ParseText(t) == Some(v) {
      ParsedReadable(SkipMark(t), 0);
      MarkedText(t, v);
    }
    forall m, w, x, rest | WellFormed(v) && Fits(v, 2048) && StartsWith(t, m, w, x, v, rest)
      ensures ParseText(t) == Some(v)
    {
      ReadsParses(w, x, v, 0, rest);
      MarkSkipped(m, w, x, v, rest);
    }
  }

  lemma {:induction false} MarkedText(t: seq<byte>, v: Value)
    requires ParseText(t) == Some(v)
    ensures exists m, w, x, rest :: StartsWith(t, m, w, x, v, rest)
  {
    var t' := SkipMark(t);
    var m, rest := t[..|t| - |t'|], ParseValue(t', 0).value.1;
    var w, x := ParsedWritten(t', 0);
    assert m + w + x + rest == m + (w + x + rest);
    assert StartsWith(t, m, w, x, v, rest);
  }

  /** A mark is skipped, and nothing else is taken for one. */
  lemma {:induction false} MarkSkipped(m: seq<byte>, w: seq<byte>, x: seq<byte>, v: Value, rest: seq<byte>)
    requires IsMark(m) && Spaces(w) && Reads(x, v, rest)
    ensures SkipMark(m + w + x + rest) == w + x + rest
  {
    ReadsStarts(x, v, rest);
    MarkBefore(m, w, x, rest);
  }

  lemma MarkBefore(m: seq<byte>, w: seq<byte>, x: seq<byte>, rest: seq<byte>)
    requires IsMark(m) && Spaces(w) && Head(x + rest) != 0xEF
    ensures SkipMark(m + w + x + rest) == w + x + rest
  {
    PaddedStarts(w, x + rest);
    assert w + x + rest == w + (x + rest);
    Regroup(m, w, x, rest);
    SkipsMark(m, w + x + rest);
  }

  lemma PaddedStarts(w: seq<byte>, t: seq<byte>)
    requires Spaces(w) && Head(t) != 0xEF
    ensures Head(w + t) != 0xEF
  {
    if |w| == 0 {
      assert w + t == t;
    } else {
      assert IsBlank(w[0]);
    }
  }

  lemma SkipsMark(m: seq<byte>, t: seq<byte>)
    requires IsMark(m) && Head(t) != 0xEF
    ensures SkipMark(m + t) == t
  {
    if m == [] {
      assert m + t == t;
    }
  }

  lemma {:induction false} ReadsStarts(x: seq<byte>, v: Value, rest: seq<byte>)
    requires Reads(x, v, rest)
    ensures Head(x + rest) != 0xEF
  {
    if x == [] && v.Number? {
      assert x + rest == rest;
    } else {
      WritesStarts(x, v);
    }
  }

  lemma {:induction false} ReadsParses(w: seq<byte>, x: seq<byte>, v: Value, nesting: nat, rest: seq<byte>)
    requires Readable(v, nesting) && Spaces(w) && Reads(x, v, rest)
    ensures ParseValue(w + x + rest, nesting) == Some((v, rest))
  {
    assert w + x + rest == w + (x + rest);
    if x == [] && v == Number(0) && LoneMinus(rest) {
      assert x + rest == rest;
      LoneMinusParses(rest, nesting);
    } else {
      WrittenStarts(x, v, rest);
      WrittenParses(x, v, nesting, rest);
    }
    SpacesIgnored(w, x + rest, nesting);
  }

  lemma {:induction false} WrittenStarts(x: seq<byte>, v: Value, rest: seq<byte>)
    requires Writes(x, v)
    ensures !IsSpace(Head(x + rest))
  {
    WritesStarts(x, v);
  }
}
