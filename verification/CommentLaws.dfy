/** When stripping is idempotent, and why it never touches what the serializer wrote. */
module CommentLaws {
  import opened Bytes
  import opened Members
  import opened Values
  import opened JsonStrings
  import opened StringCodec
  import opened Serializer
  import opened Parser
  import opened RoundTrip
  import opened Comments

  // ---- Idempotence -------------------------------------------------------------------

  /** The text behind the start token of a comment that never ends; empty if every comment ends. */
  function Unended(t: seq<byte>, inString: bool, escaped: bool, k: Tokens): (r: seq<byte>)
    requires TokensOk(k)
    ensures |r| <= |t|
    decreases |t|
  {
    if Head(t) == 0 then []
    else if CommentStarts(t, inString, escaped, k) then
      var (n, closed) := CommentLength(t, k);
      if closed then Unended(t[n..], false, false, k) else t[n..]
    else
      var (s', e') := After(t[0], inString, escaped);
      Unended(t[1..], s', e', k)
  }

  /** A start token without blanks cannot be made up by blanking. */
  ghost predicate SolidTokens(k: Tokens) {
    TokensOk(k) && forall i :: 0 <= i < |k.start| ==> k.start[i] != SPACE
  }

  /** Blanks are copied, and leave the state of plain text. */
  lemma {:induction false} StripOverBlanks(n: nat, t: seq<byte>, escaped: bool, k: Tokens)
    requires SolidTokens(k) && n > 0
    ensures Strip(Blanks(n) + t, false, escaped, k) == Blanks(n) + Strip(t, false, false, k)
    decreases n
  {
    var x := Blanks(n) + t;
    assert x[0] != k.start[0];
    CopyStep(x, false, escaped, k);
    assert x[1..] == Blanks(n - 1) + t;
    if n > 1 {
      StripOverBlanks(n - 1, t, false, k);
      Assoc([SPACE], Blanks(n - 1), Strip(t, false, false, k));
    } else {
      assert Blanks(0) + t == t;
    }
    assert [SPACE] + Blanks(n - 1) == Blanks(n);
  }

  /** Blanking other text does not make up a start token. */
  lemma NoNewComment(t: seq<byte>, r: seq<byte>, inString: bool, escaped: bool, k: Tokens)
    requires SolidTokens(k) && |t| == |r| > 0 && t[0] == r[0] && !CommentStarts(t, inString, escaped, k)
    requires forall i :: 0 <= i < |t| ==> r[i] == t[i] || r[i] == SPACE
    ensures !CommentStarts(r, inString, escaped, k)
  {
    if k.start <= r {
      assert forall i :: 0 <= i < |k.start| ==> t[i] == k.start[i];
    }
  }

  /** What the second pass does to a text is what it does to the unended tail `u`. */
  ghost predicate TailOnly(r: seq<byte>, again: seq<byte>, u: seq<byte>, stripped: seq<byte>) {
    |u| <= |r| && r[|r| - |u|..] == u && again == r[..|r| - |u|] + stripped
  }

  lemma TailOnlyPrefixed(a: seq<byte>, r: seq<byte>, again: seq<byte>, u: seq<byte>, stripped: seq<byte>)
    requires TailOnly(r, again, u, stripped)
    ensures TailOnly(a + r, a + again, u, stripped)
  {
    var m := |r| - |u|;
    assert (a + r)[..|a| + m] == a + r[..m];
    assert (a + r)[|a| + m..] == r[m..];
    Assoc(a, r[..m], stripped);
  }

  lemma CommentTwice(t: seq<byte>, inString: bool, escaped: bool, k: Tokens)
    requires SolidTokens(k) && Head(t) != 0 && CommentStarts(t, inString, escaped, k)
    ensures var (n, closed) := CommentLength(t, k);
      var rest := if closed then Strip(t[n..], false, false, k) else t[n..];
      && Strip(t, inString, escaped, k) == Blanks(n) + rest
      && Strip(Blanks(n) + rest, inString, escaped, k) == Blanks(n) + Strip(rest, false, false, k)
  {
    var (n, closed) := CommentLength(t, k);
    CommentStep(t, inString, escaped, k);
    StripOverBlanks(n, if closed then Strip(t[n..], false, false, k) else t[n..], escaped, k);
  }

  lemma CopyTwice(t: seq<byte>, inString: bool, escaped: bool, k: Tokens)
    requires SolidTokens(k) && Head(t) != 0 && !CommentStarts(t, inString, escaped, k)
    ensures var (s', e') := After(t[0], inString, escaped);
      var rest := Strip(t[1..], s', e', k);
      && Strip(t, inString, escaped, k) == [t[0]] + rest
      && Strip([t[0]] + rest, inString, escaped, k) == [t[0]] + Strip(rest, s', e', k)
  {
    var (s', e') := After(t[0], inString, escaped);
    var rest := Strip(t[1..], s', e', k);
    var r := [t[0]] + rest;
    CopyStep(t, inString, escaped, k);
    StripBlanks(t, inString, escaped, k);
    NoNewComment(t, r, inString, escaped, k);
    CopyStep(r, inString, escaped, k);
    assert r[1..] == rest;
  }

  /** The second pass only adds what it does to the text behind an unended comment. */
  lemma {:induction false} StripTwice(t: seq<byte>, inString: bool, escaped: bool, k: Tokens)
    requires SolidTokens(k)
    ensures var r, u := Strip(t, inString, escaped, k), Unended(t, inString, escaped, k);
      TailOnly(r, Strip(r, inString, escaped, k), u, Strip(u, false, false, k))
    decreases |t|
  {
    if Head(t) == 0 {
      assert t[|t|..] == [] && t[..|t|] + [] == t;
    } else if CommentStarts(t, inString, escaped, k) {
      var (n, closed) := CommentLength(t, k);
      var u := Unended(t, inString, escaped, k);
      var rest := if closed then Strip(t[n..], false, false, k) else t[n..];
      CommentTwice(t, inString, escaped, k);
      if closed {
        StripTwice(t[n..], false, false, k);
      } else {
        assert rest[..0] + Strip(u, false, false, k) == Strip(u, false, false, k);
      }
      TailOnlyPrefixed(Blanks(n), rest, Strip(rest, false, false, k), u, Strip(u, false, false, k));
    } else {
      var (s', e') := After(t[0], inString, escaped);
      var u := Unended(t, inString, escaped, k);
      var rest := Strip(t[1..], s', e', k);
      CopyTwice(t, inString, escaped, k);
      StripTwice(t[1..], s', e', k);
      TailOnlyPrefixed([t[0]], rest, Strip(rest, s', e', k), u, Strip(u, false, false, k));
    }
  }

  /** Whether a comment starts anywhere in a text, outside of its literals. */
  predicate HasComment(t: seq<byte>, inString: bool, escaped: bool, k: Tokens)
    decreases |t|
  {
    && Head(t) != 0
    && (CommentStarts(t, inString, escaped, k) ||
        var (s', e') := After(t[0], inString, escaped);
        HasComment(t[1..], s', e', k))
  }

  /** Exactly the texts without a comment stay as they are. */
  lemma {:induction false} UnchangedExactly(t: seq<byte>, inString: bool, escaped: bool, k: Tokens)
    requires SolidTokens(k)
    ensures Strip(t, inString, escaped, k) == t <==> !HasComment(t, inString, escaped, k)
    decreases |t|
  {
    if Head(t) != 0 {
      var r := Strip(t, inString, escaped, k);
      if CommentStarts(t, inString, escaped, k) {
        CommentStep(t, inString, escaped, k);
        assert r[0] == SPACE && t[0] == k.start[0];
      } else {
        var (s', e') := After(t[0], inString, escaped);
        CopyStep(t, inString, escaped, k);
        UnchangedExactly(t[1..], s', e', k);
        assert r[1..] == Strip(t[1..], s', e', k) && t == [t[0]] + t[1..];
      }
    }
  }

  /** Stripping twice is stripping once if and only if no comment starts behind an unended one. */
  lemma IdempotentExactly(t: seq<byte>, k: Tokens)
    requires SolidTokens(k)
    ensures var r := Strip(t, false, false, k);
      Strip(r, false, false, k) == r <==> !HasComment(Unended(t, false, false, k), false, false, k)
  {
    StripTwice(t, false, false, k);
    var r, u := Strip(t, false, false, k), Unended(t, false, false, k);
    UnchangedExactly(u, false, false, k);
    var m := |t| - |u|;
    assert r == r[..m] + r[m..];
    assert |Strip(r, false, false, k)| == |r|;
    if Strip(r, false, false, k) == r {
      assert (r[..m] + Strip(u, false, false, k))[m..] == Strip(u, false, false, k);
    }
  }

  /** One unended comment inside another: the second pass blanks the second token. */
  lemma NotAlwaysIdempotent()
    ensures var t := [0x2F, 0x2A, 0x2F, 0x2A];
      SolidTokens(BLOCK) && Strip(Strip(t, false, false, BLOCK), false, false, BLOCK) != Strip(t, false, false, BLOCK)
  {
    var t: seq<byte> := [0x2F, 0x2A, 0x2F, 0x2A];
    var u: seq<byte> := [0x2F, 0x2A];
    assert t[2..] == u && u[2..] == [];
    assert Find(u, BLOCK.end).None? by {
      assert u[1..] == [0x2A] && u[1..][1..] == [];
      assert BLOCK.end[0] != u[0] && |BLOCK.end| == 2;
      assert !(BLOCK.end <= u) && !(BLOCK.end <= u[1..]) && !(BLOCK.end <= u[1..][1..]);
    }
    assert Find([], BLOCK.end).None?;
    CommentStep(t, false, false, BLOCK);
    CommentStep(u, false, false, BLOCK);
    assert Strip(u, false, false, BLOCK)[0] == SPACE;
    IdempotentExactly(t, BLOCK);
  }

  // ---- Serialized text is left alone -----------------------------------------------------

  /** Token pairs that start with a slash, as both of the library do. */
  ghost predicate SlashTokens(k: Tokens) {
    TokensOk(k) && k.start[0] == SLASH
  }

  /** A piece of text that the stripper passes through without change, back to plain text. */
  ghost predicate Untouched(x: seq<byte>, k: Tokens)
    requires TokensOk(k)
  {
    forall rest: seq<byte> :: Strip(x + rest, false, false, k) == x + Strip(rest, false, false, k)
  }

  lemma UntouchedConcat(a: seq<byte>, b: seq<byte>, k: Tokens)
    requires TokensOk(k) && Untouched(a, k) && Untouched(b, k)
    ensures Untouched(a + b, k)
  {
    forall rest: seq<byte>
      ensures Strip(a + b + rest, false, false, k) == a + b + Strip(rest, false, false, k)
    {
      Assoc(a, b, rest);
      assert Strip(a + (b + rest), false, false, k) == a + Strip(b + rest, false, false, k);
      Assoc(a, b, Strip(rest, false, false, k));
    }
  }

  /** Bytes that neither open a literal nor a comment nor escape anything. */
  ghost predicate Quiet(w: seq<byte>, inString: bool) {
    forall i :: 0 <= i < |w| ==> w[i] != QUOTE && w[i] != BACKSLASH && w[i] != 0 && (inString || w[i] != SLASH)
  }

  lemma {:induction false} StripQuiet(w: seq<byte>, rest: seq<byte>, inString: bool, k: Tokens)
    requires SlashTokens(k) && Quiet(w, inString)
    ensures Strip(w + rest, inString, false, k) == w + Strip(rest, inString, false, k)
  {
    if |w| == 0 {
      assert w + rest == rest;
      assert w + Strip(rest, inString, false, k) == Strip(rest, inString, false, k);
    } else {
      var x := w + rest;
      CopyStep(x, inString, false, k);
      assert x[1..] == w[1..] + rest;
      StripQuiet(w[1..], rest, inString, k);
      Assoc([w[0]], w[1..], Strip(rest, inString, false, k));
      assert [w[0]] + w[1..] == w;
    }
  }

  lemma QuietUntouched(w: seq<byte>, k: Tokens)
    requires SlashTokens(k) && Quiet(w, false)
    ensures Untouched(w, k)
  {
    forall rest: seq<byte>
      ensures Strip(w + rest, false, false, k) == w + Strip(rest, false, false, k)
    {
      StripQuiet(w, rest, false, k);
    }
  }

  /** Inside a literal a backslash and the byte after it are passed over, whatever that byte is. */
  lemma StripEscape(c: byte, rest: seq<byte>, k: Tokens)
    requires TokensOk(k) && c != 0
    ensures Strip([BACKSLASH, c] + rest, true, false, k) == [BACKSLASH, c] + Strip(rest, true, false, k)
  {
    var x := [BACKSLASH, c] + rest;
    var y := [c] + rest;
    CopyStep(x, true, false, k);
    assert x[1..] == y;
    CopyStep(y, true, true, k);
    assert y[1..] == rest;
    Assoc([BACKSLASH], [c], Strip(rest, true, false, k));
  }

  lemma StripUnit(u: GoodUnit, rest: seq<byte>, k: Tokens)
    requires SlashTokens(k)
    ensures Strip(UnitText(u) + rest, true, false, k) == UnitText(u) + Strip(rest, true, false, k)
  {
    match u
    case Plain(b) => StripQuiet([b], rest, true, k);
    case Escape(c) => StripEscape(c, rest, k);
    case Code(h) => StripCode(h, rest, k);
    case Pair(l, t) =>
      var code := [BACKSLASH, LOWER_U] + t;
      assert UnitText(u) == [BACKSLASH, LOWER_U] + l + code;
      Assoc([BACKSLASH, LOWER_U] + l, code, rest);
      StripCode(l, code + rest, k);
      StripCode(t, rest, k);
      Assoc([BACKSLASH, LOWER_U] + l, code, Strip(rest, true, false, k));
  }

  lemma StripCode(h: seq<byte>, rest: seq<byte>, k: Tokens)
    requires SlashTokens(k) && |h| == 4 && Utf16Hex(h).Some?
    ensures Strip([BACKSLASH, LOWER_U] + h + rest, true, false, k) ==
      [BACKSLASH, LOWER_U] + h + Strip(rest, true, false, k)
  {
    Assoc([BACKSLASH, LOWER_U], h, rest);
    StripEscape(LOWER_U, h + rest, k);
    StripQuiet(h, rest, true, k);
    Assoc([BACKSLASH, LOWER_U], h, Strip(rest, true, false, k));
  }

  lemma {:induction false} StripUnits(us: seq<GoodUnit>, rest: seq<byte>, k: Tokens)
    requires SlashTokens(k)
    ensures Strip(Text(us) + rest, true, false, k) == Text(us) + Strip(rest, true, false, k)
  {
    if |us| == 0 {
      assert Text(us) + rest == rest && Text(us) + Strip(rest, true, false, k) == Strip(rest, true, false, k);
    } else {
      Assoc(UnitText(us[0]), Text(us[1..]), rest);
      StripUnit(us[0], Text(us[1..]) + rest, k);
      StripUnits(us[1..], rest, k);
      Assoc(UnitText(us[0]), Text(us[1..]), Strip(rest, true, false, k));
    }
  }

  lemma StripLiteral(us: seq<GoodUnit>, rest: seq<byte>, k: Tokens)
    requires SlashTokens(k)
    ensures Strip([QUOTE] + (Text(us) + ([QUOTE] + rest)), false, false, k) ==
      [QUOTE] + (Text(us) + ([QUOTE] + Strip(rest, false, false, k)))
  {
    var close := [QUOTE] + rest;
    var body := Text(us) + close;
    var x := [QUOTE] + body;
    CopyStep(x, false, false, k);
    assert x[1..] == body;
    StripUnits(us, close, k);
    CopyStep(close, true, false, k);
    assert close[1..] == rest;
  }

  /** The stripper agrees with the grammar about where a literal ends. */
  lemma LiteralUntouched(us: seq<GoodUnit>, k: Tokens)
    requires SlashTokens(k)
    ensures Untouched([QUOTE] + Text(us) + [QUOTE], k)
  {
    forall rest: seq<byte>
      ensures Strip([QUOTE] + Text(us) + [QUOTE] + rest, false, false, k) ==
        [QUOTE] + Text(us) + [QUOTE] + Strip(rest, false, false, k)
    {
      StripLiteral(us, rest, k);
      Surround([QUOTE], Text(us), rest);
      Surround([QUOTE], Text(us), Strip(rest, false, false, k));
    }
  }

  lemma QuoteUntouched(s: seq<byte>, slashes: bool, k: Tokens)
    requires SlashTokens(k)
    ensures Untouched(Quote(s, slashes), k)
  {
    LiteralUntouched(UnitsOf(s, slashes), k);
  }

  lemma GapUntouched(level: nat, f: Format, k: Tokens)
    requires SlashTokens(k)
    ensures Untouched(Gap(level, f), k)
  {
    QuietUntouched(Gap(level, f), k);
  }

  lemma {:induction false} SerializedUntouched(v: Value, level: nat, f: Format, k: Tokens)
    requires SlashTokens(k)
    ensures Untouched(Serialize(v, level, f), k)
    decreases v, 1
  {
    match v
    case Null => QuietUntouched(Ascii("null"), k);
    case Bool(b) => QuietUntouched(Serialize(v, level, f), k);
    case Number(n) =>
      DigitsAreDigits(if n < 0 then -n else n);
      QuietUntouched(Decimal(n), k);
    case String(s) => QuoteUntouched(s, f.slashes, k);
    case Array(items) =>
      if |items| == 0 {
        QuietUntouched([OPEN_ARRAY, CLOSE_ARRAY], k);
      } else {
        ItemsUntouched(items, level, f, k);
        EnclosedUntouched(OPEN_ARRAY, level, f, SerializeItems(items, level, f), CLOSE_ARRAY, k);
      }
    case Object(ms) =>
      if |ms| == 0 {
        QuietUntouched([OPEN_OBJECT, CLOSE_OBJECT], k);
      } else {
        MembersUntouched(ms, level, f, k);
        EnclosedUntouched(OPEN_OBJECT, level, f, SerializeMembers(ms, level, f), CLOSE_OBJECT, k);
      }
  }

  lemma EnclosedUntouched(open: byte, level: nat, f: Format, body: seq<byte>, close: byte, k: Tokens)
    requires SlashTokens(k) && Untouched(body, k) && Quiet([open], false) && Quiet([close], false)
    ensures Untouched([open] + Gap(level + 1, f) + body + [close], k)
  {
    QuietUntouched([open], k);
    GapUntouched(level + 1, f, k);
    QuietUntouched([close], k);
    UntouchedConcat([open], Gap(level + 1, f), k);
    UntouchedConcat([open] + Gap(level + 1, f), body, k);
    UntouchedConcat([open] + Gap(level + 1, f) + body, [close], k);
  }

  /** An element with what follows it: the closing gap, or a comma, a gap and the rest. */
  lemma ElementUntouched(element: seq<byte>, last: bool, level: nat, f: Format, rest: seq<byte>, k: Tokens)
    requires SlashTokens(k) && Untouched(element, k) && (last || Untouched(rest, k))
    ensures Untouched(element + if last then Gap(level, f) else [COMMA] + Gap(level + 1, f) + rest, k)
  {
    if last {
      GapUntouched(level, f, k);
      UntouchedConcat(element, Gap(level, f), k);
    } else {
      QuietUntouched([COMMA], k);
      GapUntouched(level + 1, f, k);
      UntouchedConcat([COMMA], Gap(level + 1, f), k);
      UntouchedConcat([COMMA] + Gap(level + 1, f), rest, k);
      UntouchedConcat(element, [COMMA] + Gap(level + 1, f) + rest, k);
    }
  }

  lemma {:induction false} ItemsUntouched(items: seq<Value>, level: nat, f: Format, k: Tokens)
    requires SlashTokens(k) && |items| > 0
    ensures Untouched(SerializeItems(items, level, f), k)
    decreases items, 0
  {
    SerializedUntouched(items[0], level + 1, f, k);
    if |items| == 1 {
      ElementUntouched(Serialize(items[0], level + 1, f), true, level, f, [], k);
    } else {
      ItemsUntouched(items[1..], level, f, k);
      ElementUntouched(Serialize(items[0], level + 1, f), false, level, f, SerializeItems(items[1..], level, f), k);
    }
  }

  lemma KeyUntouched(key: CString, f: Format, k: Tokens)
    requires SlashTokens(k)
    ensures Untouched(KeyText(key, f), k)
  {
    QuoteUntouched(key, f.slashes, k);
    QuietUntouched([COLON], k);
    QuietUntouched(KeyGap(f), k);
    UntouchedConcat(Quote(key, f.slashes), [COLON], k);
    UntouchedConcat(Quote(key, f.slashes) + [COLON], KeyGap(f), k);
  }

  lemma {:induction false} MembersUntouched(ms: seq<Member<Value>>, level: nat, f: Format, k: Tokens)
    requires SlashTokens(k) && |ms| > 0
    ensures Untouched(SerializeMembers(ms, level, f), k)
    decreases ms, 0
  {
    var element := KeyText(ms[0].key, f) + Serialize(ms[0].value, level + 1, f);
    KeyUntouched(ms[0].key, f, k);
    SerializedUntouched(ms[0].value, level + 1, f, k);
    UntouchedConcat(KeyText(ms[0].key, f), Serialize(ms[0].value, level + 1, f), k);
    if |ms| == 1 {
      ElementUntouched(element, true, level, f, [], k);
    } else {
      MembersUntouched(ms[1..], level, f, k);
      ElementUntouched(element, false, level, f, SerializeMembers(ms[1..], level, f), k);
    }
  }

  // ---- The parser for text with comments -----------------------------------------------------

  lemma TokensAreSlashTokens()
    ensures SlashTokens(BLOCK) && SlashTokens(LINE)
  {
  }

  /** Block comments first, then line comments, then the value. */
  function ParseTextWithComments(t: seq<byte>): (r: Option<Value>) {
    TokensAreSlashTokens();
    var t1 := Strip(t, false, false, BLOCK);
    var t2 := Strip(t1, false, false, LINE);
    match ParseValue(t2, 0)
    case None => None
    case Some((v, _)) => Some(v)
  }

  /** Serialized text loses nothing in either pass, so the parser with comments reads the same tree. */
  lemma CommentsTransparent(v: Value, f: Format)
    ensures SlashTokens(BLOCK) && SlashTokens(LINE)
    ensures Strip(Serialize(v, 0, f), false, false, BLOCK) == Serialize(v, 0, f)
    ensures Strip(Serialize(v, 0, f), false, false, LINE) == Serialize(v, 0, f)
    ensures Readable(v, 0) ==> ParseTextWithComments(Serialize(v, 0, f)) == Some(v)
  {
    TokensAreSlashTokens();
    var t := Serialize(v, 0, f);
    assert t + [] == t;
    SerializedUntouched(v, 0, f, BLOCK);
    SerializedUntouched(v, 0, f, LINE);
    assert Strip(t + [], false, false, BLOCK) == t + [] && Strip(t + [], false, false, LINE) == t + [];
    if Readable(v, 0) {
      ValueRoundTrip(v, 0, f, 0, []);
    }
  }
}
