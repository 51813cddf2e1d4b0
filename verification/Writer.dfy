/**
 * The two passes of the serializer.  With no buffer a pass only measures; with a buffer it
 * writes the same text, and the terminators it leaves on the way stay inside the buffer.
 */
module Writer {
  import opened Bytes
  import opened Members
  import opened Values
  import opened StringCodec
  import opened Serializer

  const NUM_BUF_SIZE: nat := 64

  /** From `pos` on, `now` holds `text` and a terminator, and is otherwise as before. */
  ghost predicate Terminated(before: seq<byte>, now: seq<byte>, pos: nat, text: seq<byte>) {
    && |now| == |before| && pos + |text| < |before|
    && now[..pos] == before[..pos] && now[pos..pos + |text|] == text
    && now[pos + |text|] == 0 && now[pos + |text| + 1..] == before[pos + |text| + 1..]
  }

  /** The same without a promise about the byte after the text. */
  ghost predicate Holds(before: seq<byte>, now: seq<byte>, pos: nat, text: seq<byte>) {
    && |now| == |before| && pos + |text| < |before|
    && now[..pos] == before[..pos] && now[pos..pos + |text|] == text
    && now[pos + |text| + 1..] == before[pos + |text| + 1..]
  }

  lemma HoldsNothing(before: seq<byte>, pos: nat)
    requires pos < |before|
    ensures Holds(before, before, pos, [])
  {
  }

  /** Two texts written one after the other are their concatenation. */
  lemma WriteTwice(s0: seq<byte>, s1: seq<byte>, s2: seq<byte>, pos: nat, a: seq<byte>, b: seq<byte>)
    requires Holds(s0, s1, pos, a) && Terminated(s1, s2, pos + |a|, b)
    ensures Terminated(s0, s2, pos, a + b)
    ensures Holds(s0, s2, pos, a + b)
  {
    assert s2[..pos] == s2[..pos + |a|][..pos];
    assert s1[..pos] == s1[..pos + |a|][..pos];
    assert s2[pos..pos + |a + b|] == s2[..pos + |a|][pos..] + s2[pos + |a|..pos + |a| + |b|];
    assert s1[..pos + |a|][pos..] == s1[pos..pos + |a|];
    assert s2[pos + |a + b| + 1..] == s1[pos + |a| + |b| + 1..] == s1[pos + |a| + 1..][|b|..];
    assert s0[pos + |a| + 1..][|b|..] == s0[pos + |a + b| + 1..];
  }

  /** Copies a text and terminates it; without a buffer only counts. */
  method AppendString(text: seq<byte>, buf: array?<byte>, pos: nat) returns (written: nat)
    requires buf != null ==> pos + |text| < buf.Length
    modifies buf
    ensures written == |text|
    ensures buf != null ==> Terminated(old(buf[..]), buf[..], pos, text)
  {
    if buf != null {
      var i := 0;
      while i < |text|
        invariant 0 <= i <= |text|
        invariant buf[..] == old(buf[..pos]) + text[..i] + old(buf[pos + i..])
      {
        buf[pos + i] := text[i];
        i := i + 1;
      }
      buf[pos + |text|] := 0;
    }
    return |text|;
  }

  /** Appends a text to what a pass has written so far. */
  method Emit(text: seq<byte>, buf: array?<byte>, pos: nat, written: nat, ghost start: seq<byte>,
      ghost out: seq<byte>)
    returns (written': nat)
    requires written == |out|
    requires buf != null ==> pos + |out + text| < buf.Length && Holds(start, buf[..], pos, out)
    modifies buf
    ensures written' == |out + text|
    ensures buf != null ==> Terminated(start, buf[..], pos, out + text) && Holds(start, buf[..], pos, out + text)
  {
    ghost var now := if buf != null then buf[..] else [];
    var n := AppendString(text, buf, pos + written);
    if buf != null {
      WriteTwice(start, now, buf[..], pos, out, text);
    }
    return written + n;
  }

  /** Appends one byte, without a terminator behind it. */
  method EmitByte(b: byte, buf: array?<byte>, pos: nat, written: nat, ghost start: seq<byte>, ghost out: seq<byte>)
    returns (written': nat)
    requires written == |out|
    requires buf != null ==> pos + |out| + 1 < buf.Length && Holds(start, buf[..], pos, out)
    modifies buf
    ensures written' == |out + [b]|
    ensures buf != null ==> Holds(start, buf[..], pos, out + [b])
  {
    if buf != null {
      ghost var now := buf[..];
      buf[pos + written] := b;
      assert buf[..] == now[pos + |out| := b];
      assert now[pos + |out| + 1..][1..] == now[pos + |out| + 2..] &&
        start[pos + |out| + 1..][1..] == start[pos + |out| + 2..];
    }
    return written + 1;
  }

  /** A string literal, byte by byte. */
  method SerializeString(s: seq<byte>, slashes: bool, buf: array?<byte>, pos: nat) returns (written: nat)
    requires buf != null ==> pos + |Quote(s, slashes)| < buf.Length
    modifies buf
    ensures written == |Quote(s, slashes)|
    ensures buf != null ==> Terminated(old(buf[..]), buf[..], pos, Quote(s, slashes))
  {
    ghost var start := if buf != null then buf[..] else [];
    ghost var out: seq<byte> := [];
    ghost var full := Quote(s, slashes);
    written := Emit([0x22], buf, pos, 0, start, out);
    out := [0x22];
    var i := 0;
    ghost var rest := s;
    while i < |s|
      invariant 0 <= i <= |s| && written == |out|
      invariant rest == s[i..] && full == out + EscapeAll(rest, slashes) + [0x22]
      invariant buf != null ==> Holds(start, buf[..], pos, out)
    {
      var t := EscapeByte(s[i], slashes);
      LiteralStep(out, rest, slashes);
      if |t| == 1 && s[i] != 0x2F {
        written := EmitByte(s[i], buf, pos, written, start, out);
      } else {
        written := Emit(t, buf, pos, written, start, out);
      }
      out, rest := out + t, rest[1..];
      i := i + 1;
    }
    assert EscapeAll(rest, slashes) == [] && out + [] + [0x22] == out + [0x22];
    written := Emit([0x22], buf, pos, written, start, out);
  }

  lemma LiteralStep(out: seq<byte>, s: seq<byte>, slashes: bool)
    requires |s| > 0
    ensures var t := EscapeByte(s[0], slashes);
      && out + EscapeAll(s, slashes) + [0x22] == out + t + EscapeAll(s[1..], slashes) + [0x22]
      && (|t| == 1 ==> t == [s[0]])
  {
  }

  // ---- Values ------------------------------------------------------------------

  /** What remains to be written at the head of the item loop. */
  ghost function ItemsLeft(items: seq<Value>, level: nat, f: Format): seq<byte> {
    if |items| == 0 then Margin(level, f) else Margin(level + 1, f) + SerializeItems(items, level, f)
  }

  ghost function MembersLeft(ms: seq<Member<Value>>, level: nat, f: Format): seq<byte> {
    if |ms| == 0 then Margin(level, f) else Margin(level + 1, f) + SerializeMembers(ms, level, f)
  }

  /** An empty array or object has no margin before its closing bracket. */
  ghost function Rest(left: seq<byte>, total: nat): seq<byte> {
    if total == 0 then [] else left
  }

  function Margin(level: nat, f: Format): seq<byte> {
    if f.pretty then Indent(level) else []
  }

  function Break(f: Format): seq<byte> {
    if f.pretty then [NEWLINE] else []
  }

  lemma GapIs(level: nat, f: Format)
    ensures Gap(level, f) == Break(f) + Margin(level, f)
  {
  }

  function Comma(last: bool): seq<byte> {
    if last then [] else [COMMA]
  }

  /** One round of a loop: margin, element, comma unless it is the last one, line break. */
  function Round(element: seq<byte>, last: bool, level: nat, f: Format): seq<byte> {
    Margin(level + 1, f) + element + Comma(last) + Break(f)
  }

  lemma LastRound(m: seq<byte>, s: seq<byte>, b: seq<byte>, e: seq<byte>)
    ensures m + (s + (b + e)) == m + s + [] + b + e
  {
  }

  lemma NextRound(m: seq<byte>, s: seq<byte>, b: seq<byte>, more: seq<byte>)
    ensures m + (s + ([COMMA] + (b + m) + more)) == m + s + [COMMA] + b + (m + more)
  {
  }

  lemma ItemRoundText(items: seq<Value>, level: nat, f: Format)
    requires |items| > 0
    ensures ItemsLeft(items, level, f) ==
      Round(Serialize(items[0], level + 1, f), |items| == 1, level, f) + ItemsLeft(items[1..], level, f)
  {
    GapIs(level, f);
    GapIs(level + 1, f);
    var s := Serialize(items[0], level + 1, f);
    if |items| == 1 {
      LastRound(Margin(level + 1, f), s, Break(f), Margin(level, f));
    } else {
      NextRound(Margin(level + 1, f), s, Break(f), SerializeItems(items[1..], level, f));
    }
  }

  ghost function MemberText(m: Member<Value>, level: nat, f: Format): seq<byte> {
    KeyText(m.key, f) + Serialize(m.value, level + 1, f)
  }

  lemma MemberRoundText(ms: seq<Member<Value>>, level: nat, f: Format)
    requires |ms| > 0
    ensures MembersLeft(ms, level, f) ==
      Round(MemberText(ms[0], level, f), |ms| == 1, level, f) + MembersLeft(ms[1..], level, f)
  {
    GapIs(level, f);
    GapIs(level + 1, f);
    var s := MemberText(ms[0], level, f);
    if |ms| == 1 {
      LastRound(Margin(level + 1, f), s, Break(f), Margin(level, f));
    } else {
      NextRound(Margin(level + 1, f), s, Break(f), SerializeMembers(ms[1..], level, f));
    }
  }

  lemma RoundOrder(out: seq<byte>, round: seq<byte>, left: seq<byte>, close: seq<byte>)
    ensures out + (round + left) + close == out + round + left + close
  {
  }

  lemma RoundParts(out: seq<byte>, m: seq<byte>, element: seq<byte>, c: seq<byte>, b: seq<byte>)
    ensures out + (m + element + c + b) == out + m + element + c + b
  {
  }

  lemma OpenOrder(open: byte, b: seq<byte>, m: seq<byte>, body: seq<byte>, close: byte)
    ensures [open] + (b + m) + body + [close] == [open] + b + (m + body) + [close]
  {
  }

  lemma ArrayOpens(items: seq<Value>, level: nat, f: Format)
    ensures Serialize(Array(items), level, f) ==
      [OPEN_ARRAY] + (if |items| > 0 then Break(f) else []) + Rest(ItemsLeft(items, level, f), |items|) + [CLOSE_ARRAY]
  {
    if |items| > 0 {
      GapIs(level + 1, f);
      OpenOrder(OPEN_ARRAY, Break(f), Margin(level + 1, f), SerializeItems(items, level, f), CLOSE_ARRAY);
    }
  }

  lemma ObjectOpens(ms: seq<Member<Value>>, level: nat, f: Format)
    ensures Serialize(Object(ms), level, f) ==
      [OPEN_OBJECT] + (if |ms| > 0 then Break(f) else []) + Rest(MembersLeft(ms, level, f), |ms|) + [CLOSE_OBJECT]
  {
    if |ms| > 0 {
      GapIs(level + 1, f);
      OpenOrder(OPEN_OBJECT, Break(f), Margin(level + 1, f), SerializeMembers(ms, level, f), CLOSE_OBJECT);
    }
  }

  method EmitMargin(level: nat, f: Format, buf: array?<byte>, pos: nat, written: nat,
      ghost start: seq<byte>, ghost out: seq<byte>)
    returns (written': nat)
    requires written == |out|
    requires buf != null ==> pos + |out + Margin(level, f)| < buf.Length && Holds(start, buf[..], pos, out)
    modifies buf
    ensures written' == |out + Margin(level, f)|
    ensures buf != null ==> Holds(start, buf[..], pos, out + Margin(level, f))
  {
    if f.pretty {
      written' := Emit(Indent(level), buf, pos, written, start, out);
    } else {
      assert out + [] == out;
      written' := written;
    }
  }

  /** The end of a round: a comma unless it was the last element, and a line break when pretty. */
  method EmitSeparator(last: bool, f: Format, buf: array?<byte>, pos: nat, written: nat,
      ghost start: seq<byte>, ghost out: seq<byte>)
    returns (written': nat)
    requires written == |out|
    requires buf != null ==> pos + |out + Comma(last) + Break(f)| < buf.Length && Holds(start, buf[..], pos, out)
    modifies buf
    ensures written' == |out + Comma(last) + Break(f)|
    ensures buf != null ==> Holds(start, buf[..], pos, out + Comma(last) + Break(f))
  {
    assert out + [] == out;
    written' := written;
    if !last {
      written' := Emit([COMMA], buf, pos, written', start, out);
    }
    ghost var out' := out + Comma(last);
    assert out' + [] == out';
    if f.pretty {
      written' := Emit([NEWLINE], buf, pos, written', start, out');
    }
  }

  /** A nested value, appended to what has been written so far. */
  method EmitValue(v: Value, level: nat, f: Format, buf: array?<byte>, pos: nat, written: nat,
      ghost start: seq<byte>, ghost out: seq<byte>)
    returns (written': nat)
    requires written == |out|
    requires buf != null ==> pos + |out + Serialize(v, level, f)| < buf.Length && Holds(start, buf[..], pos, out)
    modifies buf
    ensures written' == |out + Serialize(v, level, f)|
    ensures buf != null ==> Holds(start, buf[..], pos, out + Serialize(v, level, f))
    decreases v, 2
  {
    ghost var now := if buf != null then buf[..] else [];
    var n := SerializeTo(v, level, f, buf, pos + written);
    if buf != null {
      WriteTwice(start, now, buf[..], pos, out, Serialize(v, level, f));
    }
    return written + n;
  }

  method EmitKey(key: CString, f: Format, buf: array?<byte>, pos: nat, written: nat,
      ghost start: seq<byte>, ghost out: seq<byte>)
    returns (written': nat)
    requires written == |out|
    requires buf != null ==> pos + |out + KeyText(key, f)| < buf.Length && Holds(start, buf[..], pos, out)
    modifies buf
    ensures written' == |out + KeyText(key, f)|
    ensures buf != null ==> Holds(start, buf[..], pos, out + KeyText(key, f))
  {
    ghost var now := if buf != null then buf[..] else [];
    var q := Quote(key, f.slashes);
    var n := SerializeString(key, f.slashes, buf, pos + written);
    if buf != null {
      WriteTwice(start, now, buf[..], pos, out, q);
    }
    written' := Emit([COLON], buf, pos, written + n, start, out + q);
    if f.pretty {
      written' := Emit([SPACE], buf, pos, written', start, out + q + [COLON]);
      assert out + q + [COLON] + [SPACE] == out + KeyText(key, f);
    } else {
      assert out + q + [COLON] == out + KeyText(key, f);
    }
  }

  method EmitMember(m: Member<Value>, level: nat, f: Format, buf: array?<byte>, pos: nat,
      written: nat, ghost start: seq<byte>, ghost out: seq<byte>)
    returns (written': nat)
    requires written == |out|
    requires buf != null ==> pos + |out + MemberText(m, level, f)| < buf.Length && Holds(start, buf[..], pos, out)
    modifies buf
    ensures written' == |out + MemberText(m, level, f)|
    ensures buf != null ==> Holds(start, buf[..], pos, out + MemberText(m, level, f))
    decreases m, 3
  {
    ghost var k, v := KeyText(m.key, f), Serialize(m.value, level + 1, f);
    assert out + (k + v) == out + k + v;
    written' := EmitKey(m.key, f, buf, pos, written, start, out);
    written' := EmitValue(m.value, level + 1, f, buf, pos, written', start, out + k);
  }

  /** Serializes a value; the written text is the measured one, and ends with a terminator. */
  method SerializeTo(v: Value, level: nat, f: Format, buf: array?<byte>, pos: nat) returns (written: nat)
    requires buf != null ==> pos + |Serialize(v, level, f)| < buf.Length
    modifies buf
    ensures written == |Serialize(v, level, f)|
    ensures buf != null ==> Terminated(old(buf[..]), buf[..], pos, Serialize(v, level, f))
    decreases v, 1
  {
    match v
    case Null => written := AppendString(Ascii("null"), buf, pos);
    case Bool(b) => written := AppendString(if b then Ascii("true") else Ascii("false"), buf, pos);
    case Number(n) => written := AppendString(Decimal(n), buf, pos);
    case String(s) => written := SerializeString(s, f.slashes, buf, pos);
    case Array(items) => written := SerializeArrayTo(items, level, f, buf, pos);
    case Object(ms) => written := SerializeObjectTo(ms, level, f, buf, pos);
  }

  /** The opening bracket, and the line break behind it. */
  method EmitOpen(open: byte, count: nat, f: Format, buf: array?<byte>, pos: nat, ghost start: seq<byte>)
    returns (written: nat, ghost out: seq<byte>)
    requires buf != null ==> pos + 2 < buf.Length && start == buf[..]
    modifies buf
    ensures out == [open] + (if count > 0 then Break(f) else []) && written == |out|
    ensures buf != null ==> Holds(start, buf[..], pos, out)
  {
    if buf != null { HoldsNothing(start, pos); }
    assert [] + [open] == [open] && [open] + [] == [open];
    out := [open];
    written := Emit([open], buf, pos, 0, start, []);
    if count > 0 && f.pretty {
      written := Emit([NEWLINE], buf, pos, written, start, out);
      out := out + [NEWLINE];
    }
  }

  method EmitItem(v: Value, last: bool, level: nat, f: Format, buf: array?<byte>, pos: nat,
      written: nat, ghost start: seq<byte>, ghost out: seq<byte>)
    returns (written': nat)
    requires written == |out|
    requires buf != null ==>
      pos + |out + Round(Serialize(v, level + 1, f), last, level, f)| < buf.Length && Holds(start, buf[..], pos, out)
    modifies buf
    ensures written' == |out + Round(Serialize(v, level + 1, f), last, level, f)|
    ensures buf != null ==> Holds(start, buf[..], pos, out + Round(Serialize(v, level + 1, f), last, level, f))
    decreases v, 3
  {
    ghost var m, element := Margin(level + 1, f), Serialize(v, level + 1, f);
    RoundParts(out, m, element, Comma(last), Break(f));
    written' := EmitMargin(level + 1, f, buf, pos, written, start, out);
    written' := EmitValue(v, level + 1, f, buf, pos, written', start, out + m);
    written' := EmitSeparator(last, f, buf, pos, written', start, out + m + element);
  }

  method SerializeArrayTo(items: seq<Value>, level: nat, f: Format, buf: array?<byte>, pos: nat)
    returns (written: nat)
    requires buf != null ==> pos + |Serialize(Array(items), level, f)| < buf.Length
    modifies buf
    ensures written == |Serialize(Array(items), level, f)|
    ensures buf != null ==> Terminated(old(buf[..]), buf[..], pos, Serialize(Array(items), level, f))
    decreases Array(items), 0
  {
    ghost var start := if buf != null then buf[..] else [];
    ghost var full, out, rest := Serialize(Array(items), level, f), [], items;
    ArrayOpens(items, level, f);
    written, out := EmitOpen(OPEN_ARRAY, |items|, f, buf, pos, start);
    var i := 0;
    while i < |items|
      invariant 0 <= i <= |items| && written == |out| && rest == items[i..]
      invariant full == out + Rest(ItemsLeft(rest, level, f), |items|) + [CLOSE_ARRAY]
      invariant buf != null ==> Holds(start, buf[..], pos, out)
    {
      ghost var round := Round(Serialize(rest[0], level + 1, f), |rest| == 1, level, f);
      ItemRoundText(rest, level, f);
      RoundOrder(out, round, ItemsLeft(rest[1..], level, f), [CLOSE_ARRAY]);
      written := EmitItem(items[i], i == |items| - 1, level, f, buf, pos, written, start, out);
      out, rest := out + round, rest[1..];
      i := i + 1;
    }
    written := EmitClose(CLOSE_ARRAY, |items|, level, f, buf, pos, written, start, out);
  }

  method EmitMemberRound(m: Member<Value>, last: bool, level: nat, f: Format, buf: array?<byte>,
      pos: nat, written: nat, ghost start: seq<byte>, ghost out: seq<byte>)
    returns (written': nat)
    requires written == |out|
    requires buf != null ==>
      pos + |out + Round(MemberText(m, level, f), last, level, f)| < buf.Length && Holds(start, buf[..], pos, out)
    modifies buf
    ensures written' == |out + Round(MemberText(m, level, f), last, level, f)|
    ensures buf != null ==> Holds(start, buf[..], pos, out + Round(MemberText(m, level, f), last, level, f))
    decreases m, 4
  {
    ghost var margin, element := Margin(level + 1, f), MemberText(m, level, f);
    RoundParts(out, margin, element, Comma(last), Break(f));
    written' := EmitMargin(level + 1, f, buf, pos, written, start, out);
    written' := EmitMember(m, level, f, buf, pos, written', start, out + margin);
    written' := EmitSeparator(last, f, buf, pos, written', start, out + margin + element);
  }

  method SerializeObjectTo(ms: seq<Member<Value>>, level: nat, f: Format, buf: array?<byte>, pos: nat)
    returns (written: nat)
    requires buf != null ==> pos + |Serialize(Object(ms), level, f)| < buf.Length
    modifies buf
    ensures written == |Serialize(Object(ms), level, f)|
    ensures buf != null ==> Terminated(old(buf[..]), buf[..], pos, Serialize(Object(ms), level, f))
    decreases Object(ms), 0
  {
    ghost var start := if buf != null then buf[..] else [];
    ghost var full, out, rest := Serialize(Object(ms), level, f), [], ms;
    ObjectOpens(ms, level, f);
    written, out := EmitOpen(OPEN_OBJECT, |ms|, f, buf, pos, start);
    var i := 0;
    while i < |ms|
      invariant 0 <= i <= |ms| && written == |out| && rest == ms[i..]
      invariant full == out + Rest(MembersLeft(rest, level, f), |ms|) + [CLOSE_OBJECT]
      invariant buf != null ==> Holds(start, buf[..], pos, out)
    {
      ghost var round := Round(MemberText(rest[0], level, f), |rest| == 1, level, f);
      MemberRoundText(rest, level, f);
      RoundOrder(out, round, MembersLeft(rest[1..], level, f), [CLOSE_OBJECT]);
      written := EmitMemberRound(ms[i], i == |ms| - 1, level, f, buf, pos, written, start, out);
      out, rest := out + round, rest[1..];
      i := i + 1;
    }
    written := EmitClose(CLOSE_OBJECT, |ms|, level, f, buf, pos, written, start, out);
  }

  /** The closing bracket, and the margin before it. */
  method EmitClose(close: byte, count: nat, level: nat, f: Format, buf: array?<byte>, pos: nat,
      written: nat, ghost start: seq<byte>, ghost out: seq<byte>)
    returns (written': nat)
    requires written == |out|
    requires buf != null ==>
      pos + |out + Rest(Margin(level, f), count) + [close]| < buf.Length && Holds(start, buf[..], pos, out)
    modifies buf
    ensures written' == |out + Rest(Margin(level, f), count) + [close]|
    ensures buf != null ==> Terminated(start, buf[..], pos, out + Rest(Margin(level, f), count) + [close])
  {
    written' := written;
    if count > 0 {
      written' := EmitMargin(level, f, buf, pos, written, start, out);
    } else {
      assert out + [] == out;
    }
    written' := Emit([close], buf, pos, written', start, out + Rest(Margin(level, f), count));
  }

  // ---- The interface ---------------------------------------------------------------

  /** What the measuring pass asks the caller to allocate. */
  method SerializationSize(v: Value, f: Format) returns (size: nat)
    ensures size == |Serialize(v, 0, f)| + 1
  {
    var n := SerializeTo(v, 0, f, null, 0);
    return n + 1;
  }

  /** Refuses a buffer that is too small, and otherwise fills it with the text and a terminator. */
  method SerializeToBuffer(v: Value, f: Format, buf: array<byte>) returns (ok: bool)
    modifies buf
    ensures ok <==> |Serialize(v, 0, f)| < buf.Length
    ensures ok ==> Terminated(old(buf[..]), buf[..], 0, Serialize(v, 0, f))
    ensures !ok ==> buf[..] == old(buf[..])
  {
    var needed := SerializationSize(v, f);
    if buf.Length < needed {
      return false;
    }
    var n := SerializeTo(v, 0, f, buf, 0);
    return true;
  }

  /** A fresh C string that holds the text and nothing else. */
  method SerializeToString(v: Value, f: Format) returns (buf: array<byte>)
    ensures buf[..] == Serialize(v, 0, f) + [0]
    ensures fresh(buf)
  {
    var size := SerializationSize(v, f);
    buf := new byte[size];
    var ok := SerializeToBuffer(v, f, buf);
    assert buf[..] == buf[0..size - 1] + [buf[size - 1]];
  }

  /** The scratch buffer of the measuring pass holds every number and its terminator. */
  lemma NumberFitsScratch(n: int)
    requires -MAX_EXACT <= n <= MAX_EXACT
    ensures |Decimal(n)| + 1 <= NUM_BUF_SIZE
  {
    assert Power10(4) == 10000;
    assert Power10(8) == 10000 * Power10(4);
    assert Power10(12) == 10000 * Power10(8);
    assert Power10(16) == 10000 * Power10(12);
    DigitCountBound(if n < 0 then -1 * n else n, 16);
  }

  lemma {:induction false} DigitCountBound(n: nat, k: nat)
    requires n < Power10(k)
    ensures |Digits(n)| <= if k == 0 then 1 else k
    decreases k
  {
    if n >= 10 {
      DigitCountBound(n / 10, k - 1);
    }
  }

  function Power10(k: nat): nat {
    if k == 0 then 1 else 10 * Power10(k - 1)
  }
}
