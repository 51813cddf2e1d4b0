/** Comment stripping: blanking everything from a start token to an end token, outside string literals. */
module Comments {
  import opened Bytes
  import opened JsonStrings

  datatype Tokens = Tokens(start: seq<byte>, end: seq<byte>)

  /** Non-empty C strings. */
  ghost predicate TokensOk(k: Tokens) {
    |k.start| > 0 && |k.end| > 0 && NulFree(k.start) && NulFree(k.end)
  }

  const BLOCK := Tokens([0x2F, 0x2A], [0x2A, 0x2F])
  const LINE := Tokens([0x2F, 0x2F], [0x0A])

  /** Where a token first occurs before the terminator. */
  function Find(t: seq<byte>, token: seq<byte>): (r: Option<nat>)
    requires |token| > 0 && NulFree(token)
    ensures r.Some? ==> r.value + |token| <= |t| && token <= t[r.value..]
    ensures r.Some? ==> forall i :: 0 <= i < r.value + |token| ==> t[i] != 0
  {
    if token <= t then Some(0)
    else if Head(t) == 0 then None
    else
      match Find(t[1..], token)
      case None => None
      case Some(n) =>
        assert t[1..][n..] == t[n + 1..];
        Some(n + 1)
  }

  /** The length of a comment with both tokens, and whether it is terminated. */
  function CommentLength(t: seq<byte>, k: Tokens): (r: (nat, bool))
    requires TokensOk(k) && k.start <= t
    ensures |k.start| <= r.0 <= |t|
    ensures forall i :: |k.start| <= i < r.0 ==> t[i] != 0
  {
    match Find(t[|k.start|..], k.end)
    case None => (|k.start|, false)
    case Some(n) => (|k.start| + n + |k.end|, true)
  }

  function Blanks(n: nat): (t: seq<byte>)
    ensures |t| == n && forall i :: 0 <= i < n ==> t[i] == SPACE
  {
    seq(n, _ => SPACE)
  }

  /** The stripper on a text, inside a literal or not, after a backslash or not. */
  function Strip(t: seq<byte>, inString: bool, escaped: bool, k: Tokens): (r: seq<byte>)
    requires TokensOk(k)
    ensures |r| == |t|
    decreases |t|
  {
    if Head(t) == 0 then t
    else if t[0] == BACKSLASH && !escaped then [t[0]] + Strip(t[1..], inString, true, k)
    else if t[0] == QUOTE && !escaped then [t[0]] + Strip(t[1..], !inString, false, k)
    else if !inString && k.start <= t then
      var (n, closed) := CommentLength(t, k);
      Blanks(n) + if closed then Strip(t[n..], false, false, k) else t[n..]
    else [t[0]] + Strip(t[1..], inString, false, k)
  }

  /** Nothing changes except to a blank. */
  lemma {:induction false} StripBlanks(t: seq<byte>, inString: bool, escaped: bool, k: Tokens)
    requires TokensOk(k)
    ensures forall i :: 0 <= i < |t| ==>
      Strip(t, inString, escaped, k)[i] == t[i] || Strip(t, inString, escaped, k)[i] == SPACE
    decreases |t|
  {
    if Head(t) != 0 {
      if CommentStarts(t, inString, escaped, k) {
        CommentStep(t, inString, escaped, k);
        var (n, closed) := CommentLength(t, k);
        if closed {
          StripBlanks(t[n..], false, false, k);
        }
      } else {
        var (s', e') := After(t[0], inString, escaped);
        StripBlanks(t[1..], s', e', k);
      }
    }
  }

  // ---- In place --------------------------------------------------------------------

  method FillBlanks(a: array<byte>, from: nat, n: nat, ghost done: seq<byte>, ghost t: seq<byte>)
    requires a[..] == done + t && |done| == from && n <= |t|
    modifies a
    ensures a[..] == done + Blanks(n) + t[n..]
  {
    var i := 0;
    while i < n
      invariant 0 <= i <= n
      invariant a[..] == done + Blanks(i) + t[i..]
    {
      a[from + i] := SPACE;
      i := i + 1;
    }
  }

  /** A byte that is copied: the state after it. */
  function After(c: byte, inString: bool, escaped: bool): (bool, bool) {
    if c == BACKSLASH && !escaped then (inString, true)
    else if c == QUOTE && !escaped then (!inString, false)
    else (inString, false)
  }

  predicate CommentStarts(t: seq<byte>, inString: bool, escaped: bool, k: Tokens) {
    |t| > 0 && (escaped || (t[0] != BACKSLASH && t[0] != QUOTE)) && !inString && k.start <= t
  }

  lemma CopyStep(t: seq<byte>, inString: bool, escaped: bool, k: Tokens)
    requires TokensOk(k) && |t| > 0 && t[0] != 0 && !CommentStarts(t, inString, escaped, k)
    ensures var (s', e') := After(t[0], inString, escaped);
      Strip(t, inString, escaped, k) == [t[0]] + Strip(t[1..], s', e', k)
  {
  }

  lemma CommentStep(t: seq<byte>, inString: bool, escaped: bool, k: Tokens)
    requires TokensOk(k) && CommentStarts(t, inString, escaped, k)
    ensures var (n, closed) := CommentLength(t, k);
      Strip(t, inString, escaped, k) == Blanks(n) + if closed then Strip(t[n..], false, false, k) else t[n..]
  {
    assert t[0] == k.start[0];
  }

  lemma MoreBlanks(done: seq<byte>, n: nat, m: nat, t: seq<byte>)
    requires n + m <= |t|
    ensures done + Blanks(n) + Blanks(m) + t[n..][m..] == done + Blanks(n + m) + t[n + m..]
  {
    assert Blanks(n) + Blanks(m) == Blanks(n + m) && t[n..][m..] == t[n + m..];
  }

  /** Blanks the comment at `p`; returns where it ends and whether its end token was there. */
  method BlankComment(a: array<byte>, p: nat, k: Tokens, ghost done: seq<byte>, ghost t: seq<byte>)
    returns (n: nat, closed: bool)
    requires |done| == p && a[..] == done + t && TokensOk(k) && k.start <= t
    modifies a
    ensures (n, closed) == CommentLength(t, k)
    ensures a[..] == done + Blanks(n) + t[n..]
  {
    n := |k.start|;
    FillBlanks(a, p, n, done, t);
    assert a[p + n..] == t[n..];
    var found := Find(a[p + n..], k.end);
    if found.None? {
      return n, false;
    }
    var m := found.value + |k.end|;
    FillBlanks(a, p + n, m, done + Blanks(n), t[n..]);
    MoreBlanks(done, n, m, t);
    return n + m, true;
  }

  /** A comment never takes the terminator with it. */
  lemma CommentEndsBefore(t: seq<byte>, k: Tokens)
    requires TokensOk(k) && k.start <= t && |t| > 0 && t[|t| - 1] == 0
    ensures 0 < CommentLength(t, k).0 < |t|
  {
    var n := CommentLength(t, k).0;
    assert t[n - 1] != 0;
  }

  /** One blanked comment moves from the rest to what is done. */
  lemma CommentDone(done: seq<byte>, t: seq<byte>, inString: bool, escaped: bool, k: Tokens)
    requires TokensOk(k) && CommentStarts(t, inString, escaped, k) && t[|t| - 1] == 0
    ensures var (n, closed) := CommentLength(t, k);
      && 0 < n < |t| && t[n..][|t| - n - 1] == 0
      && done + Strip(t, inString, escaped, k) ==
        done + Blanks(n) + if closed then Strip(t[n..], false, false, k) else t[n..]
  {
    var (n, closed) := CommentLength(t, k);
    CommentEndsBefore(t, k);
    CommentStep(t, inString, escaped, k);
    Assoc(done, Blanks(n), if closed then Strip(t[n..], false, false, k) else t[n..]);
  }

  /** One copied byte moves from the rest to what is done. */
  lemma CopyDone(done: seq<byte>, t: seq<byte>, inString: bool, escaped: bool, k: Tokens)
    requires TokensOk(k) && |t| > 0 && t[0] != 0 && t[|t| - 1] == 0 && !CommentStarts(t, inString, escaped, k)
    ensures |t| > 1 && t[1..][|t| - 2] == 0 && done + t == done + [t[0]] + t[1..]
    ensures var (s', e') := After(t[0], inString, escaped);
      done + Strip(t, inString, escaped, k) == done + [t[0]] + Strip(t[1..], s', e', k)
  {
    var (s', e') := After(t[0], inString, escaped);
    CopyStep(t, inString, escaped, k);
    Assoc(done, [t[0]], Strip(t[1..], s', e', k));
    assert t == [t[0]] + t[1..];
    Assoc(done, [t[0]], t[1..]);
  }

  /** A round that blanks a comment; without an end token it is the last one. */
  method CommentRound(a: array<byte>, p: nat, inString: bool, escaped: bool, k: Tokens,
      ghost done: seq<byte>, ghost t: seq<byte>)
    returns (p': nat, more: bool, ghost done': seq<byte>, ghost t': seq<byte>)
    requires TokensOk(k) && |done| == p && a[..] == done + t
    requires CommentStarts(t, inString, escaped, k) && t[|t| - 1] == 0
    modifies a
    ensures |done'| == p' && a[..] == done' + t' && 0 < |t'| < |t| && t'[|t'| - 1] == 0
    ensures done + Strip(t, inString, escaped, k) == if more then done' + Strip(t', false, false, k) else a[..]
  {
    CommentDone(done, t, inString, escaped, k);
    var n;
    n, more := BlankComment(a, p, k, done, t);
    p', done', t' := p + n, done + Blanks(n), t[n..];
  }

  /** One round of the loop: a comment is blanked, or a byte is passed over. */
  method StripRound(a: array<byte>, p: nat, inString: bool, escaped: bool, k: Tokens,
      ghost done: seq<byte>, ghost t: seq<byte>)
    returns (p': nat, s': bool, e': bool, more: bool, ghost done': seq<byte>, ghost t': seq<byte>)
    requires TokensOk(k) && |done| == p && a[..] == done + t
    requires |t| > 0 && t[0] != 0 && t[|t| - 1] == 0
    modifies a
    ensures |done'| == p' && a[..] == done' + t' && 0 < |t'| < |t| && t'[|t'| - 1] == 0
    ensures done + Strip(t, inString, escaped, k) == if more then done' + Strip(t', s', e', k) else a[..]
  {
    assert a[p..] == t && a[p] == t[0];
    if CommentStarts(a[p..], inString, escaped, k) {
      p', more, done', t' := CommentRound(a, p, inString, escaped, k, done, t);
      s', e' := false, false;
      return;
    }
    CopyDone(done, t, inString, escaped, k);
    var (s, e) := After(a[p], inString, escaped);
    return p + 1, s, e, true, done + [t[0]], t[1..];
  }

  /** Works in place on a terminated text. */
  method RemoveComments(a: array<byte>, k: Tokens)
    requires a.Length > 0 && a[a.Length - 1] == 0 && NulFree(k.start) && NulFree(k.end)
    modifies a
    ensures a[..] == if |k.start| == 0 || |k.end| == 0 then old(a[..]) else Strip(old(a[..]), false, false, k)
  {
    if |k.start| == 0 || |k.end| == 0 {
      return;
    }
    var inString, escaped, more := false, false, true;
    var p := 0;
    ghost var done: seq<byte>, t := [], a[..];
    ghost var whole := Strip(t, false, false, k);
    assert [] + whole == whole;
    while a[p] != 0
      invariant 0 <= p == |done| && |t| > 0 && a[..] == done + t && t[|t| - 1] == 0
      invariant whole == done + Strip(t, inString, escaped, k)
      decreases |t|
    {
      p, inString, escaped, more, done, t := StripRound(a, p, inString, escaped, k, done, t);
      if !more {
        return;
      }
    }
  }
}
