/**
 * Text with comments between its tokens.  Comments are given by their own bytes here, not by the
 * stripper, and they come to as many blanks.
 */
module CommentedText {
  import opened Bytes
  import opened Values
  import opened JsonStrings
  import opened Serializer
  import opened Parser
  import opened RoundTrip
  import opened DepthLimit
  import opened Comments
  import opened CommentLaws
  import ParserMethods

  // ---- One comment --------------------------------------------------------------------------

  /** In `body` followed by `end`, the end token does not occur before its place. */
  ghost predicate EndsOnce(body: seq<byte>, end: seq<byte>) {
    forall i :: 0 <= i < |body| ==> !(end <= (body + end)[i..])
  }

  ghost predicate Absent(body: seq<byte>, end: seq<byte>) {
    forall i :: 0 <= i <= |body| ==> !(end <= body[i..])
  }

  lemma {:induction false} FindEnd(body: seq<byte>, end: seq<byte>, rest: seq<byte>)
    requires |end| > 0 && NulFree(end) && NulFree(body) && EndsOnce(body, end)
    ensures Find(body + end + rest, end) == Some(|body|)
  {
    var t := body + end + rest;
    if |body| == 0 {
      assert t == end + rest;
    } else {
      var b := body[1..];
      assert t[1..] == b + end + rest;
      assert forall i :: 0 <= i < |b| ==> (b + end)[i..] == (body + end)[i + 1..];
      NotEarlier(body, end, rest);
      FindEnd(b, end, rest);
    }
  }

  lemma NotEarlier(body: seq<byte>, end: seq<byte>, rest: seq<byte>)
    requires |body| > 0 && EndsOnce(body, end)
    ensures !(end <= body + end + rest)
  {
    var x := body + end;
    assert x[0..] == x;
  }

  lemma {:induction false} FindNothing(t: seq<byte>, end: seq<byte>)
    requires |end| > 0 && NulFree(end) && Absent(t, end)
    ensures Find(t, end).None?
  {
    assert t[0..] == t;
    if Head(t) != 0 {
      assert forall i :: 0 <= i <= |t[1..]| ==> t[1..][i..] == t[i + 1..];
      FindNothing(t[1..], end);
    }
  }

  /** Token pairs that start with neither a quote nor a backslash. */
  ghost predicate PlainTokens(k: Tokens) {
    TokensOk(k) && k.start[0] != QUOTE && k.start[0] != BACKSLASH
  }

  /** A comment comes to blanks, its tokens included, and stripping goes on right behind it. */
  lemma CommentBlanked(body: seq<byte>, rest: seq<byte>, k: Tokens)
    requires PlainTokens(k) && NulFree(body) && EndsOnce(body, k.end)
    ensures var comment := k.start + body + k.end;
      Strip(comment + rest, false, false, k) == Blanks(|comment|) + Strip(rest, false, false, k)
  {
    var t := k.start + body + k.end + rest;
    assert t[|k.start|..] == body + k.end + rest;
    FindEnd(body, k.end, rest);
    assert t[|k.start| + |body| + |k.end|..] == rest;
    CommentStep(t, false, false, k);
  }

  /** Of a comment without an end, only the start token is blanked, and nothing behind it. */
  lemma UnendedBlanked(body: seq<byte>, k: Tokens)
    requires PlainTokens(k) && Absent(body, k.end)
    ensures Strip(k.start + body, false, false, k) == Blanks(|k.start|) + body
  {
    var t := k.start + body;
    assert t[|k.start|..] == body;
    FindNothing(body, k.end);
    CommentStep(t, false, false, k);
  }

  // ---- Text in pieces -----------------------------------------------------------------------

  /** Bytes outside of literals and comments, a string literal, or a comment of either kind. */
  datatype Piece = Other(w: seq<byte>) | Literal(us: seq<GoodUnit>) | Block(body: seq<byte>) | Line(body: seq<byte>)

  /** Neither a quote nor a backslash, no terminator, and no slash that a star follows. */
  ghost predicate Harmless(w: seq<byte>) {
    && (forall i :: 0 <= i < |w| ==> w[i] != 0x22 && w[i] != 0x5C && w[i] != 0)
    && (forall i :: 0 <= i < |w| - 1 ==> !(w[i] == 0x2F && w[i + 1] == 0x2A))
  }

  ghost predicate PieceOk(p: Piece) {
    match p
    case Other(w) => Harmless(w) && 0x2F !in w
    case Literal(_) => true
    case Block(body) => NulFree(body) && EndsOnce(body, [0x2A, 0x2F])
    case Line(body) => Harmless([0x2F] + body) && 0x0A !in body
  }

  type GoodPiece = p: Piece | PieceOk(p) ghost witness Other([])

  function PieceText(p: Piece): seq<byte> {
    match p
    case Other(w) => w
    case Literal(us) => [0x22] + Text(us) + [0x22]
    case Block(body) => [0x2F, 0x2A] + body + [0x2A, 0x2F]
    case Line(body) => [0x2F, 0x2F] + body + [0x0A]
  }

  /** The piece with blanks for the bytes of a comment; line comments only if `lines`. */
  function Blanked(p: Piece, lines: bool): seq<byte> {
    if p.Block? || (p.Line? && lines) then seq(|PieceText(p)|, _ => 0x20) else PieceText(p)
  }

  function TextOf(ps: seq<GoodPiece>): seq<byte> {
    if |ps| == 0 then [] else PieceText(ps[0]) + TextOf(ps[1..])
  }

  function BlankedText(ps: seq<GoodPiece>, lines: bool): seq<byte> {
    if |ps| == 0 then [] else Blanked(ps[0], lines) + BlankedText(ps[1..], lines)
  }

  /** Whatever follows, the stripper turns `x` into `y` and is then back in plain text. */
  ghost predicate Becomes(x: seq<byte>, y: seq<byte>, k: Tokens)
    requires TokensOk(k)
  {
    forall rest: seq<byte> :: BecomesBefore(x, y, k, rest)
  }

  ghost predicate BecomesBefore(x: seq<byte>, y: seq<byte>, k: Tokens, rest: seq<byte>)
    requires TokensOk(k)
  {
    Strip(x + rest, false, false, k) == y + Strip(rest, false, false, k)
  }

  lemma BecomesBoth(x: seq<byte>, y: seq<byte>, x': seq<byte>, y': seq<byte>, k: Tokens)
    requires TokensOk(k) && Becomes(x, y, k) && Becomes(x', y', k)
    ensures Becomes(x + x', y + y', k)
  {
    forall rest: seq<byte> ensures BecomesBefore(x + x', y + y', k, rest) {
      Assoc(x, x', rest);
      assert BecomesBefore(x, y, k, x' + rest) && BecomesBefore(x', y', k, rest);
      Assoc(y, y', Strip(rest, false, false, k));
    }
  }

  lemma NothingBecomes(k: Tokens)
    requires TokensOk(k)
    ensures Becomes([], [], k)
  {
    forall rest: seq<byte> ensures BecomesBefore([], [], k, rest) {
      assert [] + rest == rest && [] + Strip(rest, false, false, k) == Strip(rest, false, false, k);
    }
  }

  lemma CommentBecomes(body: seq<byte>, k: Tokens)
    requires PlainTokens(k) && NulFree(body) && EndsOnce(body, k.end)
    ensures Becomes(k.start + body + k.end, Blanks(|k.start + body + k.end|), k)
  {
    var comment := k.start + body + k.end;
    forall rest: seq<byte> ensures BecomesBefore(comment, Blanks(|comment|), k, rest) {
      CommentBlanked(body, rest, k);
    }
  }

  /** The pass for block comments copies a line comment, for nothing in it looks like the start of a block. */
  lemma {:induction false} HarmlessCopied(w: seq<byte>, rest: seq<byte>)
    requires Harmless(w) && |w| > 0 && w[|w| - 1] != 0x2F
    ensures Strip(w + rest, false, false, BLOCK) == w + Strip(rest, false, false, BLOCK)
  {
    var t := w + rest;
    assert |w| > 1 ==> t[1] == w[1];
    CopyStep(t, false, false, BLOCK);
    assert t[1..] == w[1..] + rest;
    if |w| > 1 {
      HarmlessCopied(w[1..], rest);
    } else {
      assert w[1..] + rest == rest;
      assert w[1..] + Strip(rest, false, false, BLOCK) == Strip(rest, false, false, BLOCK);
    }
    Assoc([w[0]], w[1..], Strip(rest, false, false, BLOCK));
    assert [w[0]] + w[1..] == w;
  }

  lemma LineCopied(body: seq<byte>)
    requires PieceOk(Line(body))
    ensures Becomes(PieceText(Line(body)), PieceText(Line(body)), BLOCK)
  {
    var w := PieceText(Line(body));
    assert Harmless(w) by {
      var x := [0x2F] + body;
      assert forall i :: 0 < i < |w| - 1 ==> w[i] == x[i - 1];
      assert forall i :: 0 < i < |w| - 2 ==> w[i + 1] == x[i];
    }
    forall rest: seq<byte> ensures BecomesBefore(w, w, BLOCK, rest) {
      HarmlessCopied(w, rest);
    }
  }

  lemma UntouchedStays(x: seq<byte>, k: Tokens)
    requires TokensOk(k) && Untouched(x, k)
    ensures Becomes(x, x, k)
  {
    forall rest: seq<byte> ensures BecomesBefore(x, x, k, rest) {
      assert Strip(x + rest, false, false, k) == x + Strip(rest, false, false, k);
    }
  }

  lemma QuietStays(w: seq<byte>, k: Tokens)
    requires SlashTokens(k) && Quiet(w, false)
    ensures Becomes(w, w, k)
  {
    QuietUntouched(w, k);
    UntouchedStays(w, k);
  }

  lemma LiteralStays(us: seq<GoodUnit>, k: Tokens)
    requires SlashTokens(k)
    ensures Becomes([0x22] + Text(us) + [0x22], [0x22] + Text(us) + [0x22], k)
  {
    LiteralUntouched(us, k);
    UntouchedStays([QUOTE] + Text(us) + [QUOTE], k);
  }

  lemma BlockPass(p: GoodPiece)
    ensures Becomes(PieceText(p), Blanked(p, false), BLOCK)
  {
    TokensAreSlashTokens();
    match p
    case Other(w) => QuietStays(w, BLOCK);
    case Literal(us) => LiteralStays(us, BLOCK);
    case Block(body) => CommentBecomes(body, BLOCK);
    case Line(body) => LineCopied(body);
  }

  lemma LinePass(p: GoodPiece)
    ensures Becomes(Blanked(p, false), Blanked(p, true), LINE)
  {
    TokensAreSlashTokens();
    match p
    case Other(w) => QuietStays(w, LINE);
    case Literal(us) => LiteralStays(us, LINE);
    case Block(body) => QuietStays(Blanks(|PieceText(p)|), LINE);
    case Line(body) =>
      LineBody(body);
      CommentBecomes(body, LINE);
  }

  lemma LineBody(body: seq<byte>)
    requires PieceOk(Line(body))
    ensures NulFree(body) && EndsOnce(body, [0x0A])
  {
    var x := [0x2F] + body;
    assert forall i :: 0 <= i < |body| ==> body[i] == x[i + 1];
    assert forall i :: 0 <= i < |body| ==> (body + [0x0A])[i..][0] == body[i];
  }

  lemma {:induction false} Passes(ps: seq<GoodPiece>)
    ensures Becomes(TextOf(ps), BlankedText(ps, false), BLOCK)
    ensures Becomes(BlankedText(ps, false), BlankedText(ps, true), LINE)
  {
    if |ps| == 0 {
      NothingBecomes(BLOCK);
      NothingBecomes(LINE);
    } else {
      var p, qs := ps[0], ps[1..];
      Passes(qs);
      BlockPass(p);
      LinePass(p);
      BecomesBoth(PieceText(p), Blanked(p, false), TextOf(qs), BlankedText(qs, false), BLOCK);
      BecomesBoth(Blanked(p, false), Blanked(p, true), BlankedText(qs, false), BlankedText(qs, true), LINE);
    }
  }

  // ---- The parser for text with comments ----------------------------------------------------

  /** Both passes, over some pieces and whatever stands behind them. */
  lemma BothPasses(ps: seq<GoodPiece>, rest: seq<byte>)
    ensures TokensOk(BLOCK) && TokensOk(LINE)
    ensures Strip(Strip(TextOf(ps) + rest, false, false, BLOCK), false, false, LINE) ==
      BlankedText(ps, true) + Strip(Strip(rest, false, false, BLOCK), false, false, LINE)
  {
    Passes(ps);
    var r := Strip(rest, false, false, BLOCK);
    assert BecomesBefore(TextOf(ps), BlankedText(ps, false), BLOCK, rest);
    assert BecomesBefore(BlankedText(ps, false), BlankedText(ps, true), LINE, r);
  }

  /** A text with comments between its tokens is read as the text with blanks in place of the comments. */
  lemma CommentsAreBlanks(ps: seq<GoodPiece>)
    ensures ParseTextWithComments(TextOf(ps)) ==
      match ParseValue(BlankedText(ps, true), 0) { case None => None case Some((v, _)) => Some(v) }
  {
    TokensAreSlashTokens();
    BothPasses(ps, []);
    assert TextOf(ps) + [] == TextOf(ps) && BlankedText(ps, true) + [] == BlankedText(ps, true);
  }

  /** Spaces or a comment. */
  ghost predicate IsMargin(p: Piece) {
    match p
    case Other(w) => forall i :: 0 <= i < |w| ==> IsBlank(w[i])
    case Literal(_) => false
    case _ => true
  }

  lemma {:induction false} MarginSpaces(ps: seq<GoodPiece>)
    requires forall i :: 0 <= i < |ps| ==> IsMargin(ps[i])
    ensures forall i :: 0 <= i < |BlankedText(ps, true)| ==> IsSpace(BlankedText(ps, true)[i])
  {
    if |ps| > 0 {
      MarginSpaces(ps[1..]);
      assert IsMargin(ps[0]);
    }
  }

  /** What follows a number still ends it when comments have been stripped. */
  lemma StillEnds(rest: seq<byte>)
    requires NumberEnds(rest)
    ensures TokensOk(BLOCK) && TokensOk(LINE)
    ensures NumberEnds(Strip(Strip(rest, false, false, BLOCK), false, false, LINE))
  {
    StripBlanks(rest, false, false, BLOCK);
    StripBlanks(Strip(rest, false, false, BLOCK), false, false, LINE);
  }

  lemma {:induction false} SerializedKept(v: Value, f: Format, rest: seq<byte>)
    ensures TokensOk(BLOCK) && TokensOk(LINE)
    ensures Strip(Strip(Serialize(v, 0, f) + rest, false, false, BLOCK), false, false, LINE) ==
      Serialize(v, 0, f) + Strip(Strip(rest, false, false, BLOCK), false, false, LINE)
  {
    TokensAreSlashTokens();
    SerializedUntouched(v, 0, f, BLOCK);
    SerializedUntouched(v, 0, f, LINE);
    var x, r := Serialize(v, 0, f), Strip(rest, false, false, BLOCK);
    assert Strip(x + rest, false, false, BLOCK) == x + r;
    assert Strip(x + r, false, false, LINE) == x + Strip(r, false, false, LINE);
  }

  /** Comments in front of a serialized value, and anything behind it, do not change what is read. */
  lemma {:induction false} CommentsIgnored(ps: seq<GoodPiece>, v: Value, f: Format, rest: seq<byte>)
    requires forall i :: 0 <= i < |ps| ==> IsMargin(ps[i])
    requires WellFormed(v) && Fits(v, 2048) && (v.Number? ==> NumberEnds(rest))
    ensures ParseTextWithComments(TextOf(ps) + (Serialize(v, 0, f) + rest)) == Some(v)
  {
    BothPasses(ps, Serialize(v, 0, f) + rest);
    SerializedKept(v, f, rest);
    MarginSpaces(ps);
    var r := Strip(Strip(rest, false, false, BLOCK), false, false, LINE);
    if v.Number? {
      StillEnds(rest);
    }
    FirstByte(v, 0, f);
    ValueRoundTrip(v, 0, f, 0, r);
    SpacesIgnored(BlankedText(ps, true), Serialize(v, 0, f) + r, 0);
  }

  // ---- The entry point as it runs -----------------------------------------------------------

  lemma TokenInTerminated(t: seq<byte>, token: seq<byte>)
    requires NulFree(token)
    ensures token <= t + [0] <==> token <= t
  {
    var x := t + [0];
    assert x[..|t|] == t && x[|t|] == 0;
    if |token| <= |t| {
      assert forall i :: 0 <= i < |token| ==> x[i] == t[i];
    }
  }

  lemma {:induction false} FindInTerminated(t: seq<byte>, token: seq<byte>)
    requires |token| > 0 && NulFree(token)
    ensures Find(t + [0], token) == Find(t, token)
  {
    var x := t + [0];
    TokenInTerminated(t, token);
    if Head(t) != 0 {
      assert x[1..] == t[1..] + [0];
      FindInTerminated(t[1..], token);
    }
  }

  lemma CommentInTerminated(t: seq<byte>, k: Tokens)
    requires TokensOk(k) && k.start <= t
    ensures CommentLength(t + [0], k) == CommentLength(t, k)
  {
    assert (t + [0])[|k.start|..] == t[|k.start|..] + [0];
    FindInTerminated(t[|k.start|..], k.end);
  }

  lemma StartInTerminated(t: seq<byte>, inString: bool, escaped: bool, k: Tokens)
    requires TokensOk(k) && |t| > 0
    ensures CommentStarts(t + [0], inString, escaped, k) == CommentStarts(t, inString, escaped, k)
  {
    TokenInTerminated(t, k.start);
  }

  /** The terminator does not take part. */
  lemma {:induction false} StripTerminated(t: seq<byte>, inString: bool, escaped: bool, k: Tokens)
    requires TokensOk(k) && NulFree(t)
    ensures Strip(t + [0], inString, escaped, k) == Strip(t, inString, escaped, k) + [0]
    ensures NulFree(Strip(t, inString, escaped, k))
    decreases |t|
  {
    StripBlanks(t, inString, escaped, k);
    if |t| > 0 {
      StartInTerminated(t, inString, escaped, k);
      if CommentStarts(t, inString, escaped, k) {
        var (n, closed) := CommentLength(t, k);
        CommentInTerminated(t, k);
        CommentStep(t, inString, escaped, k);
        CommentStep(t + [0], inString, escaped, k);
        assert (t + [0])[n..] == t[n..] + [0];
        if closed {
          StripTerminated(t[n..], false, false, k);
        }
      } else {
        var (s', e') := After(t[0], inString, escaped);
        CopyStep(t, inString, escaped, k);
        CopyStep(t + [0], inString, escaped, k);
        assert (t + [0])[1..] == t[1..] + [0];
        StripTerminated(t[1..], s', e', k);
      }
    }
  }

  /** A terminated copy of a C string. */
  method Duplicate(s: CString) returns (a: array<byte>)
    ensures fresh(a) && a[..] == s + [0]
  {
    a := new byte[|s| + 1];
    for i := 0 to |s|
      invariant a[..i] == s[..i]
    {
      a[i] := s[i];
    }
    a[|s|] := 0;
  }

  method StripPass(a: array<byte>, ghost t: CString, k: Tokens)
    requires TokensOk(k) && a[..] == t + [0]
    modifies a
    ensures NulFree(Strip(t, false, false, k)) && a[..] == Strip(t, false, false, k) + [0]
  {
    StripTerminated(t, false, false, k);
    assert a[a.Length - 1] == 0;
    RemoveComments(a, k);
  }

  /** Copies the text, strips block comments and then line comments in place, and parses what is left. */
  method ParseStringWithComments(s: CString, hash: CString -> nat) returns (r: Option<Value>)
    ensures r == ParseTextWithComments(s)
  {
    TokensAreSlashTokens();
    var a := Duplicate(s);
    StripPass(a, s, BLOCK);
    ghost var t := Strip(s, false, false, BLOCK);
    StripPass(a, t, LINE);
    ghost var u := Strip(t, false, false, LINE);
    var text := a[..a.Length - 1];
    assert text == u && text[0..] == text;
    var end;
    r, end := ParserMethods.ParseValueAt(text, 0, 0, hash);
  }
}
