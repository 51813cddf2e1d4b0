/**
 * What the two forms of serialized text look like.  A formatter that knows only bytes, brackets and
 * literals turns either form into the other.
 */
module Layout {
  import opened Bytes
  import opened Members
  import opened Values
  import opened JsonStrings
  import opened StringCodec
  import opened Serializer
  import opened RoundTrip

  /** A line break and four spaces for each open bracket. */
  function NewLine(depth: int, pretty: bool): seq<byte> {
    if pretty then [0x0A] + seq(if depth > 0 then 4 * depth else 0, _ => 0x20) else []
  }

  datatype State = State(depth: int, inString: bool, escaped: bool)

  function Outside(depth: int): State { State(depth, false, false) }

  /**
   * What the first byte becomes, how many bytes it takes, and the state behind them.  Every blank
   * outside of literals is dropped.  The pretty form starts a new line behind an opening bracket and
   * a comma and before a closing bracket, but not between the brackets of nothing, and puts a space
   * behind a colon.
   */
  function Step(t: seq<byte>, s: State, pretty: bool): (r: (seq<byte>, nat, State))
    requires |t| > 0
    ensures 1 <= r.1 <= |t|
  {
    var c, d := t[0], s.depth;
    if s.inString then ([c], 1, State(d, s.escaped || c != 0x22, !s.escaped && c == 0x5C))
    else if c == 0x22 then ([c], 1, State(d, true, false))
    else if IsBlank(c) then ([], 1, Outside(d))
    else if (c == 0x5B || c == 0x7B) && |t| > 1 && t[1] == c + 2 then ([c, c + 2], 2, Outside(d))
    else if c == 0x5B || c == 0x7B then ([c] + NewLine(d + 1, pretty), 1, Outside(d + 1))
    else if c == 0x5D || c == 0x7D then (NewLine(d - 1, pretty) + [c], 1, Outside(d - 1))
    else if c == 0x2C then ([c] + NewLine(d, pretty), 1, Outside(d))
    else if c == 0x3A then ([c] + (if pretty then [0x20] else []), 1, Outside(d))
    else ([c], 1, Outside(d))
  }

  function Reform(t: seq<byte>, s: State, pretty: bool): seq<byte>
    decreases |t|
  {
    if |t| == 0 then []
    else
      var (out, n, s') := Step(t, s, pretty);
      out + Reform(t[n..], s', pretty)
  }

  lemma StepIs(t: seq<byte>, s: State, p: bool, out: seq<byte>, n: nat, s': State, rest: seq<byte>)
    requires |t| > 0 && Step(t, s, p) == (out, n, s') && t[n..] == rest
    ensures Reform(t, s, p) == out + Reform(rest, s', p)
  {
  }

  /** Whatever follows, `x` becomes `y`, and `d` open brackets become `e`. */
  ghost predicate Turns(x: seq<byte>, y: seq<byte>, d: int, e: int, pretty: bool) {
    forall rest: seq<byte> :: TurnsBefore(x, y, d, e, pretty, rest)
  }

  ghost predicate TurnsBefore(x: seq<byte>, y: seq<byte>, d: int, e: int, pretty: bool, rest: seq<byte>) {
    Reform(x + rest, Outside(d), pretty) == y + Reform(rest, Outside(e), pretty)
  }

  lemma TurnsBoth(x: seq<byte>, y: seq<byte>, x': seq<byte>, y': seq<byte>, d: int, e: int, e': int, p: bool)
    requires Turns(x, y, d, e, p) && Turns(x', y', e, e', p)
    ensures Turns(x + x', y + y', d, e', p)
  {
    forall rest: seq<byte> ensures TurnsBefore(x + x', y + y', d, e', p, rest) {
      Assoc(x, x', rest);
      assert TurnsBefore(x, y, d, e, p, x' + rest);
      assert TurnsBefore(x', y', e, e', p, rest);
      Assoc(y, y', Reform(rest, Outside(e'), p));
    }
  }

  lemma NothingTurns(d: int, p: bool)
    ensures Turns([], [], d, d, p)
  {
    forall rest: seq<byte> ensures TurnsBefore([], [], d, d, p, rest) {
      assert [] + rest == rest && [] + Reform(rest, Outside(d), p) == Reform(rest, Outside(d), p);
    }
  }

  // ---- Blanks, scalars and punctuation --------------------------------------------------------

  /** A byte that is handled alone and outside of literals. */
  lemma ByteTurns(c: byte, y: seq<byte>, d: int, e: int, p: bool)
    requires c != 0x22 && c != 0x5B && c != 0x7B && Step([c], Outside(d), p) == (y, 1, Outside(e))
    ensures Turns([c], y, d, e, p)
  {
    forall rest: seq<byte> ensures TurnsBefore([c], y, d, e, p, rest) {
      StepIs([c] + rest, Outside(d), p, y, 1, Outside(e), rest);
    }
  }

  lemma {:induction false} BlanksTurn(w: seq<byte>, d: int, p: bool)
    requires forall i :: 0 <= i < |w| ==> IsBlank(w[i])
    ensures Turns(w, [], d, d, p)
  {
    if |w| == 0 {
      NothingTurns(d, p);
    } else {
      ByteTurns(w[0], [], d, d, p);
      BlanksTurn(w[1..], d, p);
      var none: seq<byte> := [];
      TurnsBoth([w[0]], none, w[1..], none, d, d, d, p);
      assert [w[0]] + w[1..] == w && none + none == none;
    }
  }

  /** A byte of a number or a word. */
  ghost predicate WordByte(b: byte) {
    b == 0x2D || 0x30 <= b <= 0x39 || 0x61 <= b <= 0x7A
  }

  lemma {:induction false} WordTurns(w: seq<byte>, d: int, p: bool)
    requires forall i :: 0 <= i < |w| ==> WordByte(w[i])
    ensures Turns(w, w, d, d, p)
  {
    if |w| == 0 {
      NothingTurns(d, p);
    } else {
      ByteTurns(w[0], [w[0]], d, d, p);
      WordTurns(w[1..], d, p);
      TurnsBoth([w[0]], [w[0]], w[1..], w[1..], d, d, d, p);
      assert [w[0]] + w[1..] == w;
    }
  }

  lemma EmptyTurns(open: byte, d: int, p: bool)
    requires open == OPEN_ARRAY || open == OPEN_OBJECT
    ensures Turns([open, open + 2], [open, open + 2], d, d, p)
  {
    var x := [open, open + 2];
    forall rest: seq<byte> ensures TurnsBefore(x, x, d, d, p, rest) {
      StepIs(x + rest, Outside(d), p, x, 2, Outside(d), rest);
    }
  }

  lemma OpenTurns(open: byte, x: seq<byte>, y: seq<byte>, d: int, e: int, p: bool)
    requires open == OPEN_ARRAY || open == OPEN_OBJECT
    requires |x| > 0 && x[0] != open + 2 && Turns(x, y, d + 1, e, p)
    ensures Turns([open] + x, [open] + NewLine(d + 1, p) + y, d, e, p)
  {
    var start := [open] + NewLine(d + 1, p);
    forall rest: seq<byte> ensures TurnsBefore([open] + x, start + y, d, e, p, rest) {
      Assoc([open], x, rest);
      StepIs([open] + (x + rest), Outside(d), p, start, 1, Outside(d + 1), x + rest);
      assert TurnsBefore(x, y, d + 1, e, p, rest);
      Assoc(start, y, Reform(rest, Outside(e), p));
    }
  }

  // ---- Literals ---------------------------------------------------------------------------------

  function Inside(depth: int): State { State(depth, true, false) }

  /** Inside a literal every byte is copied, and `x` leaves the state as it was. */
  ghost predicate Copies(x: seq<byte>, d: int, p: bool) {
    forall rest: seq<byte> :: CopiesBefore(x, d, p, rest)
  }

  ghost predicate CopiesBefore(x: seq<byte>, d: int, p: bool, rest: seq<byte>) {
    Reform(x + rest, Inside(d), p) == x + Reform(rest, Inside(d), p)
  }

  lemma CopiesBoth(x: seq<byte>, x': seq<byte>, d: int, p: bool)
    requires Copies(x, d, p) && Copies(x', d, p)
    ensures Copies(x + x', d, p)
  {
    forall rest: seq<byte> ensures CopiesBefore(x + x', d, p, rest) {
      Assoc(x, x', rest);
      assert CopiesBefore(x, d, p, x' + rest) && CopiesBefore(x', d, p, rest);
      Assoc(x, x', Reform(rest, Inside(d), p));
    }
  }

  lemma NothingCopies(d: int, p: bool)
    ensures Copies([], d, p)
  {
    forall rest: seq<byte> ensures CopiesBefore([], d, p, rest) {
      assert [] + rest == rest && [] + Reform(rest, Inside(d), p) == Reform(rest, Inside(d), p);
    }
  }

  lemma PlainCopies(b: byte, d: int, p: bool)
    requires b != 0x22 && b != 0x5C
    ensures Copies([b], d, p)
  {
    forall rest: seq<byte> ensures CopiesBefore([b], d, p, rest) {
      StepIs([b] + rest, Inside(d), p, [b], 1, Inside(d), rest);
    }
  }

  lemma EscapeCopies(c: byte, d: int, p: bool)
    ensures Copies([0x5C, c], d, p)
  {
    forall rest: seq<byte> ensures CopiesBefore([0x5C, c], d, p, rest) {
      var t := [0x5C, c] + rest;
      StepIs(t, Inside(d), p, [0x5C], 1, State(d, true, true), [c] + rest);
      StepIs([c] + rest, State(d, true, true), p, [c], 1, Inside(d), rest);
      Assoc([0x5C], [c], Reform(rest, Inside(d), p));
    }
  }

  lemma {:induction false} DigitsCopy(h: seq<byte>, d: int, p: bool)
    requires forall i :: 0 <= i < |h| ==> IsHex(h[i])
    ensures Copies(h, d, p)
  {
    if |h| == 0 {
      NothingCopies(d, p);
    } else {
      PlainCopies(h[0], d, p);
      DigitsCopy(h[1..], d, p);
      CopiesBoth([h[0]], h[1..], d, p);
      assert [h[0]] + h[1..] == h;
    }
  }

  lemma CodeCopies(h: seq<byte>, d: int, p: bool)
    requires |h| == 4 && Utf16Hex(h).Some?
    ensures Copies([BACKSLASH, LOWER_U] + h, d, p)
  {
    EscapeCopies(LOWER_U, d, p);
    DigitsCopy(h, d, p);
    CopiesBoth([BACKSLASH, LOWER_U], h, d, p);
  }

  lemma UnitCopies(u: GoodUnit, d: int, p: bool)
    ensures Copies(UnitText(u), d, p)
  {
    match u
    case Plain(b) => PlainCopies(b, d, p);
    case Escape(c) => EscapeCopies(c, d, p);
    case Code(h) => CodeCopies(h, d, p);
    case Pair(l, t) =>
      CodeCopies(l, d, p);
      CodeCopies(t, d, p);
      CopiesBoth([BACKSLASH, LOWER_U] + l, [BACKSLASH, LOWER_U] + t, d, p);
      assert UnitText(u) == [BACKSLASH, LOWER_U] + l + ([BACKSLASH, LOWER_U] + t);
  }

  lemma {:induction false} UnitsCopy(us: seq<GoodUnit>, d: int, p: bool)
    ensures Copies(Text(us), d, p)
  {
    if |us| == 0 {
      NothingCopies(d, p);
    } else {
      UnitCopies(us[0], d, p);
      UnitsCopy(us[1..], d, p);
      CopiesBoth(UnitText(us[0]), Text(us[1..]), d, p);
    }
  }

  lemma LiteralTurns(body: seq<byte>, d: int, p: bool)
    requires Copies(body, d, p)
    ensures Turns([QUOTE] + body + [QUOTE], [QUOTE] + body + [QUOTE], d, d, p)
  {
    var x := [QUOTE] + body + [QUOTE];
    forall rest: seq<byte> ensures TurnsBefore(x, x, d, d, p, rest) {
      var close := [QUOTE] + rest;
      Surround([QUOTE], body, rest);
      StepIs([QUOTE] + (body + close), Outside(d), p, [QUOTE], 1, Inside(d), body + close);
      assert CopiesBefore(body, d, p, close);
      StepIs(close, Inside(d), p, [QUOTE], 1, Outside(d), rest);
      Surround([QUOTE], body, Reform(rest, Outside(d), p));
    }
  }

  lemma QuoteTurns(s: seq<byte>, slashes: bool, d: int, p: bool)
    ensures Turns(Quote(s, slashes), Quote(s, slashes), d, d, p)
  {
    UnitsCopy(UnitsOf(s, slashes), d, p);
    LiteralTurns(Text(UnitsOf(s, slashes)), d, p);
  }

  // ---- Values -------------------------------------------------------------------------------------

  lemma {:induction false} IndentIs(level: nat)
    ensures Indent(level) == seq(4 * level, _ => 0x20)
  {
    if level > 0 {
      IndentIs(level - 1);
    }
  }

  lemma GapIs(level: nat, f: Format)
    ensures Gap(level, f) == NewLine(level, f.pretty)
  {
    IndentIs(level);
  }

  lemma GapTurns(level: nat, f: Format, d: int, p: bool)
    ensures Turns(Gap(level, f), [], d, d, p)
  {
    BlanksTurn(Gap(level, f), d, p);
  }

  lemma ScalarTurns(v: Value, level: nat, f: Format, g: Format)
    requires f.slashes == g.slashes && !v.Array? && !v.Object?
    ensures Turns(Serialize(v, level, f), Serialize(v, level, g), level, level, g.pretty)
  {
    match v
    case Null => WordTurns(Ascii("null"), level, g.pretty);
    case Bool(b) => WordTurns(Serialize(v, level, g), level, g.pretty);
    case Number(n) =>
      DigitsAreDigits(if n < 0 then -n else n);
      WordTurns(Decimal(n), level, g.pretty);
    case String(s) => QuoteTurns(s, g.slashes, level, g.pretty);
  }

  /** A body with its closing bracket, in its brackets. */
  lemma EnclosedTurns(open: byte, x: seq<byte>, y: seq<byte>, level: nat, f: Format, g: Format)
    requires (open == OPEN_ARRAY || open == OPEN_OBJECT) && |x| > 0 && x[0] != open + 2
    requires Turns(x + [open + 2], y + [open + 2], level + 1, level, g.pretty)
    ensures Turns([open] + Gap(level + 1, f) + x + [open + 2], [open] + Gap(level + 1, g) + y + [open + 2],
        level, level, g.pretty)
  {
    var gap := Gap(level + 1, f);
    GapTurns(level + 1, f, level + 1, g.pretty);
    TurnsBoth(gap, [], x + [open + 2], y + [open + 2], level + 1, level + 1, level, g.pretty);
    assert [] + (y + [open + 2]) == y + [open + 2];
    OpenTurns(open, gap + (x + [open + 2]), y + [open + 2], level, level, g.pretty);
    GapIs(level + 1, g);
    assert [open] + (gap + (x + [open + 2])) == [open] + gap + x + [open + 2];
    assert [open] + Gap(level + 1, g) + (y + [open + 2]) == [open] + Gap(level + 1, g) + y + [open + 2];
  }

  /** An element and what follows it up to the closing bracket. */
  lemma ElementTurns(x: seq<byte>, y: seq<byte>, last: bool, x': seq<byte>, y': seq<byte>, close: byte,
      level: nat, f: Format, g: Format)
    requires close == CLOSE_ARRAY || close == CLOSE_OBJECT
    requires Turns(x, y, level + 1, level + 1, g.pretty)
    requires last || Turns(x' + [close], y' + [close], level + 1, level, g.pretty)
    ensures Turns(
        x + (if last then Gap(level, f) else [COMMA] + Gap(level + 1, f) + x') + [close],
        y + (if last then Gap(level, g) else [COMMA] + Gap(level + 1, g) + y') + [close],
        level + 1, level, g.pretty)
  {
    var p, d := g.pretty, level + 1;
    GapIs(level, g);
    GapIs(d, g);
    if last {
      GapTurns(level, f, d, p);
      ByteTurns(close, Gap(level, g) + [close], d, level, p);
      TurnsBoth(x, y, Gap(level, f), [], d, d, d, p);
      TurnsBoth(x + Gap(level, f), y + [], [close], Gap(level, g) + [close], d, d, level, p);
      assert y + [] + (Gap(level, g) + [close]) == y + Gap(level, g) + [close];
    } else {
      GapTurns(d, f, d, p);
      ByteTurns(COMMA, [COMMA] + Gap(d, g), d, d, p);
      TurnsBoth(x, y, [COMMA], [COMMA] + Gap(d, g), d, d, d, p);
      TurnsBoth(x + [COMMA], y + ([COMMA] + Gap(d, g)), Gap(d, f), [], d, d, d, p);
      TurnsBoth(x + [COMMA] + Gap(d, f), y + ([COMMA] + Gap(d, g)) + [], x' + [close], y' + [close], d, d, level, p);
      ElementText(x, Gap(d, f), x', close);
      ElementText(y, Gap(d, g), y', close);
      assert y + ([COMMA] + Gap(d, g)) + [] == y + [COMMA] + Gap(d, g);
    }
  }

  lemma ElementText(x: seq<byte>, gap: seq<byte>, x': seq<byte>, close: byte)
    ensures x + ([COMMA] + gap + x') + [close] == x + [COMMA] + gap + (x' + [close])
  {
  }

  /** Either form of a value is turned into the other, or into itself. */
  lemma {:induction false} ValueTurns(v: Value, level: nat, f: Format, g: Format)
    requires f.slashes == g.slashes
    ensures Turns(Serialize(v, level, f), Serialize(v, level, g), level, level, g.pretty)
    decreases v, 1
  {
    match v
    case Array(items) =>
      if |items| == 0 {
        EmptyTurns(OPEN_ARRAY, level, g.pretty);
      } else {
        ItemsTurn(items, level, f, g);
        FirstByte(items[0], level + 1, f);
        EnclosedTurns(OPEN_ARRAY, SerializeItems(items, level, f), SerializeItems(items, level, g), level, f, g);
      }
    case Object(ms) =>
      if |ms| == 0 {
        EmptyTurns(OPEN_OBJECT, level, g.pretty);
      } else {
        MembersTurn(ms, level, f, g);
        EnclosedTurns(OPEN_OBJECT, SerializeMembers(ms, level, f), SerializeMembers(ms, level, g), level, f, g);
      }
    case _ => ScalarTurns(v, level, f, g);
  }

  lemma {:induction false} ItemsTurn(items: seq<Value>, level: nat, f: Format, g: Format)
    requires f.slashes == g.slashes && |items| > 0
    ensures Turns(SerializeItems(items, level, f) + [CLOSE_ARRAY], SerializeItems(items, level, g) + [CLOSE_ARRAY],
        level + 1, level, g.pretty)
    decreases items, 0
  {
    var x, y := Serialize(items[0], level + 1, f), Serialize(items[0], level + 1, g);
    ValueTurns(items[0], level + 1, f, g);
    if |items| == 1 {
      ElementTurns(x, y, true, [], [], CLOSE_ARRAY, level, f, g);
    } else {
      ItemsTurn(items[1..], level, f, g);
      ElementTurns(x, y, false, SerializeItems(items[1..], level, f), SerializeItems(items[1..], level, g),
        CLOSE_ARRAY, level, f, g);
    }
  }

  lemma KeyTurns(key: CString, d: int, f: Format, g: Format)
    requires f.slashes == g.slashes
    ensures Turns(KeyText(key, f), KeyText(key, g), d, d, g.pretty)
  {
    var q := Quote(key, g.slashes);
    QuoteTurns(key, g.slashes, d, g.pretty);
    ByteTurns(COLON, [COLON] + KeyGap(g), d, d, g.pretty);
    BlanksTurn(KeyGap(f), d, g.pretty);
    TurnsBoth(q, q, [COLON], [COLON] + KeyGap(g), d, d, d, g.pretty);
    TurnsBoth(q + [COLON], q + ([COLON] + KeyGap(g)), KeyGap(f), [], d, d, d, g.pretty);
    assert q + ([COLON] + KeyGap(g)) + [] == q + [COLON] + KeyGap(g);
  }

  lemma {:induction false} MembersTurn(ms: seq<Member<Value>>, level: nat, f: Format, g: Format)
    requires f.slashes == g.slashes && |ms| > 0
    ensures Turns(SerializeMembers(ms, level, f) + [CLOSE_OBJECT], SerializeMembers(ms, level, g) + [CLOSE_OBJECT],
        level + 1, level, g.pretty)
    decreases ms, 0
  {
    var k, k' := KeyText(ms[0].key, f), KeyText(ms[0].key, g);
    var x, y := Serialize(ms[0].value, level + 1, f), Serialize(ms[0].value, level + 1, g);
    KeyTurns(ms[0].key, level + 1, f, g);
    ValueTurns(ms[0].value, level + 1, f, g);
    TurnsBoth(k, k', x, y, level + 1, level + 1, level + 1, g.pretty);
    if |ms| == 1 {
      ElementTurns(k + x, k' + y, true, [], [], CLOSE_OBJECT, level, f, g);
    } else {
      MembersTurn(ms[1..], level, f, g);
      ElementTurns(k + x, k' + y, false, SerializeMembers(ms[1..], level, f), SerializeMembers(ms[1..], level, g),
        CLOSE_OBJECT, level, f, g);
    }
  }

  /** Formatting either form gives the form that was asked for; the compact one has no blank outside of literals. */
  lemma FormsExactly(v: Value, f: Format, g: Format)
    requires f.slashes == g.slashes
    ensures Reform(Serialize(v, 0, f), Outside(0), g.pretty) == Serialize(v, 0, g)
  {
    var x, y := Serialize(v, 0, f), Serialize(v, 0, g);
    ValueTurns(v, 0, f, g);
    assert TurnsBefore(x, y, 0, 0, g.pretty, []);
    assert x + [] == x && y + [] == y;
  }
}
