/** Parsing what the serializer wrote gives the same tree, and stops right behind it. */
module RoundTrip {
  import opened Bytes
  import opened Members
  import opened Values
  import opened JsonStrings
  import opened StringCodec
  import opened Serializer
  import opened Parser

  /** What may follow a number: nothing that the C library would read into it. */
  predicate NumberEnds(rest: seq<byte>) {
    var b := Head(rest);
    !(0x30 <= b <= 0x39) && b != 0x2E && b != 0x45 && b != 0x65 && b != 0x58 && b != 0x78
  }

  // ---- Numbers ---------------------------------------------------------------

  lemma {:induction false} DigitsAreDigits(n: nat)
    ensures forall i :: 0 <= i < |Digits(n)| ==> IsDigit(Digits(n)[i])
    ensures DigitsValue(Digits(n)) == n
    ensures |Digits(n)| > 1 ==> Digits(n)[0] != 0x30
    ensures n > 0 ==> Digits(n)[0] != 0x30
  {
    if n >= 10 {
      DigitsAreDigits(n / 10);
      var t := Digits(n);
      assert t[..|t| - 1] == Digits(n / 10);
    }
  }

  lemma {:induction false} CountDigits(ds: seq<byte>, rest: seq<byte>)
    requires forall i :: 0 <= i < |ds| ==> IsDigit(ds[i])
    requires !IsDigit(Head(rest))
    ensures DigitCount(ds + rest) == |ds|
  {
    if |ds| == 0 {
      assert ds + rest == rest;
    } else {
      assert (ds + rest)[1..] == ds[1..] + rest;
      CountDigits(ds[1..], rest);
    }
  }

  lemma NumberParts(t: seq<byte>, sign: nat, ds: seq<byte>, rest: seq<byte>)
    requires |ds| > 0 && (forall i :: 0 <= i < |ds| ==> IsDigit(ds[i])) && NumberEnds(rest)
    requires sign <= |t| && sign == (if Head(t) == 0x2D then 1 else 0) && t[sign..] == ds + rest
    requires |ds| > 1 || sign == 1 ==> ds[0] != 0x30
    requires NumberOf(sign == 1, ds).Some?
    ensures ParseNumber(t) == Some((NumberOf(sign == 1, ds).value, rest))
  {
    CountDigits(ds, rest);
    assert t[sign + |ds|..] == t[sign..][|ds|..] == rest;
    assert t[sign..sign + |ds|] == t[sign..][..|ds|] == ds;
    assert t[sign] == t[sign..][0] == ds[0];
  }

  lemma SignedParts(negative: bool, ds: seq<byte>, rest: seq<byte>)
    requires |ds| > 0 && (forall i :: 0 <= i < |ds| ==> IsDigit(ds[i])) && NumberEnds(rest)
    requires |ds| > 1 || negative ==> ds[0] != 0x30
    requires NumberOf(negative, ds).Some?
    ensures ParseNumber((if negative then [0x2D] else []) + ds + rest) == Some((NumberOf(negative, ds).value, rest))
  {
    var t := (if negative then [0x2D] else []) + ds + rest;
    if negative {
      assert t[1..] == ds + rest;
      NumberParts(t, 1, ds, rest);
    } else {
      assert t[0..] == ds + rest && t[0] == ds[0];
      NumberParts(t, 0, ds, rest);
    }
  }

  lemma NumberRoundTrip(n: int, rest: seq<byte>)
    requires -0x20_0000_0000_0000 <= n <= 0x20_0000_0000_0000 && NumberEnds(rest)
    ensures ParseNumber(Decimal(n) + rest) == Some((Number(n), rest))
  {
    var m := if n < 0 then -n else n;
    DigitsAreDigits(m);
    SignedParts(n < 0, Digits(m), rest);
    assert Decimal(n) == (if n < 0 then [0x2D] else []) + Digits(m);
  }

  // ---- Whitespace and first bytes ---------------------------------------------

  lemma {:induction false} SkipAllSpaces(w: seq<byte>, x: seq<byte>)
    requires forall i :: 0 <= i < |w| ==> IsSpace(w[i])
    requires !IsSpace(Head(x))
    ensures SkipSpaces(w + x) == x
  {
    if |w| == 0 {
      assert w + x == x;
    } else {
      assert (w + x)[1..] == w[1..] + x;
      SkipAllSpaces(w[1..], x);
    }
  }

  lemma SkipGap(level: nat, f: Format, x: seq<byte>)
    requires !IsSpace(Head(x))
    ensures SkipSpaces(Gap(level, f) + x) == x
  {
    SkipAllSpaces(Gap(level, f), x);
  }

  /** A value's text starts with a byte that is no space, bracket, comma or terminator. */
  predicate Starts(c: byte) {
    c == 0x7B || c == 0x5B || c == QUOTE || c == 0x66 || c == 0x74 || c == 0x6E || c == 0x2D || IsDigit(c)
  }

  lemma FirstByte(v: Value, level: nat, f: Format)
    ensures Starts(Serialize(v, level, f)[0])
    ensures v.Number? ==> Serialize(v, level, f)[0] == 0x2D || IsDigit(Serialize(v, level, f)[0])
  {
    if v.Number? {
      DigitsAreDigits(if v.n < 0 then -v.n else v.n);
    }
  }

  // ---- Containers --------------------------------------------------------------

  /** What an item of a non-empty array or object must satisfy for the round trip. */
  ghost predicate Readable(v: Value, nesting: nat) {
    WellFormed(v) && nesting <= MAX_NESTING && Fits(v, MAX_NESTING - nesting)
  }

  /** Any tree within the nesting limit is read back, whatever follows it. */
  lemma {:induction false} ValueRoundTrip(v: Value, level: nat, f: Format, nesting: nat, rest: seq<byte>)
    requires Readable(v, nesting)
    requires v.Number? ==> NumberEnds(rest)
    ensures ParseValue(Serialize(v, level, f) + rest, nesting) == Some((v, rest))
    decreases v, 1
  {
    var t := Serialize(v, level, f) + rest;
    FirstByte(v, level, f);
    assert SkipSpaces(t) == t;
    match v
    case Null => assert t[4..] == rest;
    case Bool(b) => assert t[if b then 4 else 5..] == rest;
    case Number(n) => NumberRoundTrip(n, rest);
    case String(s) => QuoteRoundTrip(s, f.slashes, rest);
    case Array(items) => ArrayRoundTrip(items, level, f, nesting, rest);
    case Object(ms) => ObjectRoundTrip(ms, level, f, nesting, rest);
  }

  // Steps of the parser, without the text behind them.

  lemma LastItem(t: seq<byte>, nesting: nat, v: Value, t1: seq<byte>, t2: seq<byte>)
    requires Head(t) != 0 && ParseValue(t, nesting) == Some((v, t1)) && Separator(t1, CLOSE_ARRAY) == (false, t2)
    ensures ParseItems(t, nesting) == Some(([v], t2))
  {
  }

  lemma NextItem(t: seq<byte>, nesting: nat, v: Value, t1: seq<byte>, t2: seq<byte>)
    requires Head(t) != 0 && ParseValue(t, nesting) == Some((v, t1)) && Separator(t1, CLOSE_ARRAY) == (true, t2)
    ensures ParseItems(t2, nesting).None? ==> ParseItems(t, nesting).None?
    ensures ParseItems(t2, nesting).Some? ==>
      ParseItems(t, nesting) == Some(([v] + ParseItems(t2, nesting).value.0, ParseItems(t2, nesting).value.1))
  {
  }

  lemma CommaThen(x: seq<byte>, close: byte)
    requires Head(SkipSpaces(x)) != close
    ensures Separator([COMMA] + x, close) == (true, SkipSpaces(x))
  {
    var c := [COMMA] + x;
    assert SkipSpaces(c) == c && c[1..] == x;
  }

  lemma ArrayStep(t: seq<byte>, nesting: nat, t1: seq<byte>, items: seq<Value>, rest: seq<byte>)
    requires SkipSpaces(t) == t1 && Head(t1) != CLOSE_ARRAY
    requires ParseItems(t1, nesting) == Some((items, [CLOSE_ARRAY] + rest))
    ensures ParseArray([OPEN_ARRAY] + t, nesting) == Some((Array(items), rest))
  {
    assert ([OPEN_ARRAY] + t)[1..] == t;
    assert SkipSpaces([CLOSE_ARRAY] + rest) == [CLOSE_ARRAY] + rest;
  }

  lemma MembersStep(t: seq<byte>, nesting: nat, done: seq<Member<Value>>, ms: seq<Member<Value>>,
      t1: seq<byte>, more: bool, t2: seq<byte>)
    requires Head(t) != 0 && ParseMember(t, nesting, done) == Some((ms, t1)) &&
      Separator(t1, CLOSE_OBJECT) == (more, t2)
    ensures ParseMembers(t, nesting, done) == if more then ParseMembers(t2, nesting, ms) else Some((ms, t2))
  {
  }

  lemma ObjectStep(t: seq<byte>, nesting: nat, t1: seq<byte>, ms: seq<Member<Value>>, rest: seq<byte>)
    requires SkipSpaces(t) == t1 && Head(t1) != CLOSE_OBJECT
    requires ParseMembers(t1, nesting, []) == Some((ms, [CLOSE_OBJECT] + rest))
    ensures ParseObject([OPEN_OBJECT] + t, nesting) == Some((Object(ms), rest))
  {
    assert ([OPEN_OBJECT] + t)[1..] == t;
    assert SkipSpaces([CLOSE_OBJECT] + rest) == [CLOSE_OBJECT] + rest;
  }

  lemma ColonStep(x: seq<byte>, nesting: nat)
    ensures ParseColonValue([COLON] + x, nesting) == ParseValue(x, nesting)
  {
    var c := [COLON] + x;
    assert SkipSpaces(c) == c && c[1..] == x;
  }

  lemma MemberStep(t: seq<byte>, nesting: nat, done: seq<Member<Value>>, m: Member<Value>, gap: seq<byte>,
      text: seq<byte>, rest: seq<byte>)
    requires QuotedString(t) == Some((m.key, [COLON] + (gap + text)))
    requires SkipSpaces(gap + text) == text && ParseValue(text, nesting) == Some((m.value, rest)) &&
      !HasKey(done, m.key)
    ensures ParseMember(t, nesting, done) == Some((done + [m], rest))
  {
    ColonStep(gap + text, nesting);
    SkipTwice(gap + text);
    assert ParseValue(gap + text, nesting) == ParseValue(text, nesting);
  }

  lemma {:induction false} SkipTwice(t: seq<byte>)
    ensures SkipSpaces(SkipSpaces(t)) == SkipSpaces(t)
  {
    if |t| > 0 && IsSpace(t[0]) { SkipTwice(t[1..]); }
  }

  // The text of items and members together with all that follows them.

  function ItemsThen(items: seq<Value>, level: nat, f: Format, rest: seq<byte>): (t: seq<byte>)
    requires |items| > 0
    decreases |items|, 1
  {
    Serialize(items[0], level + 1, f) + AfterItem(items, level, f, rest)
  }

  function AfterItem(items: seq<Value>, level: nat, f: Format, rest: seq<byte>): (t: seq<byte>)
    requires |items| > 0
    decreases |items|, 0
  {
    if |items| == 1 then Gap(level, f) + ([CLOSE_ARRAY] + rest)
    else [COMMA] + (Gap(level + 1, f) + ItemsThen(items[1..], level, f, rest))
  }

  lemma {:induction false} ItemsThenIs(items: seq<Value>, level: nat, f: Format, rest: seq<byte>)
    requires |items| > 0
    ensures ItemsThen(items, level, f, rest) == SerializeItems(items, level, f) + ([CLOSE_ARRAY] + rest)
  {
    var text, close := Serialize(items[0], level + 1, f), [CLOSE_ARRAY] + rest;
    if |items| == 1 {
      assert text + (Gap(level, f) + close) == text + Gap(level, f) + close;
    } else {
      ItemsThenIs(items[1..], level, f, rest);
      CommaRegroup(text, Gap(level + 1, f), SerializeItems(items[1..], level, f), close);
    }
  }

  lemma CommaRegroup(text: seq<byte>, gap: seq<byte>, body: seq<byte>, close: seq<byte>)
    ensures text + ([COMMA] + gap + body) + close == text + ([COMMA] + (gap + (body + close)))
  {
  }

  function MembersThen(ms: seq<Member<Value>>, level: nat, f: Format, rest: seq<byte>): (t: seq<byte>)
    requires |ms| > 0
    decreases |ms|, 1
  {
    MemberThen(ms[0], level, f, AfterMember(ms, level, f, rest))
  }

  function MemberThen(m: Member<Value>, level: nat, f: Format, after: seq<byte>): (t: seq<byte>) {
    Quote(m.key, f.slashes) + ([COLON] + (KeyGap(f) + (Serialize(m.value, level + 1, f) + after)))
  }

  function KeyGap(f: Format): seq<byte> {
    if f.pretty then [SPACE] else []
  }

  function AfterMember(ms: seq<Member<Value>>, level: nat, f: Format, rest: seq<byte>): (t: seq<byte>)
    requires |ms| > 0
    decreases |ms|, 0
  {
    if |ms| == 1 then Gap(level, f) + ([CLOSE_OBJECT] + rest)
    else [COMMA] + (Gap(level + 1, f) + MembersThen(ms[1..], level, f, rest))
  }

  lemma MemberThenIs(m: Member<Value>, level: nat, f: Format, after: seq<byte>)
    ensures MemberThen(m, level, f, after) == KeyText(m.key, f) + Serialize(m.value, level + 1, f) + after
  {
    var q, s := Quote(m.key, f.slashes), Serialize(m.value, level + 1, f);
    assert q + ([COLON] + (KeyGap(f) + (s + after))) == q + [COLON] + KeyGap(f) + s + after;
  }

  lemma {:induction false} MembersThenIs(ms: seq<Member<Value>>, level: nat, f: Format, rest: seq<byte>)
    requires |ms| > 0
    ensures MembersThen(ms, level, f, rest) == SerializeMembers(ms, level, f) + ([CLOSE_OBJECT] + rest)
    decreases |ms|
  {
    var text, close := KeyText(ms[0].key, f) + Serialize(ms[0].value, level + 1, f), [CLOSE_OBJECT] + rest;
    MemberThenIs(ms[0], level, f, AfterMember(ms, level, f, rest));
    if |ms| == 1 {
      assert text + (Gap(level, f) + close) == text + Gap(level, f) + close;
    } else {
      MembersThenIs(ms[1..], level, f, rest);
      CommaRegroup(text, Gap(level + 1, f), SerializeMembers(ms[1..], level, f), close);
    }
  }

  lemma Enclosed(open: seq<byte>, gap: seq<byte>, body: seq<byte>, close: seq<byte>, rest: seq<byte>)
    ensures open + gap + body + close + rest == open + (gap + (body + (close + rest)))
  {
  }

  lemma ArrayText(items: seq<Value>, level: nat, f: Format, rest: seq<byte>)
    requires |items| > 0
    ensures Serialize(Array(items), level, f) + rest ==
      [OPEN_ARRAY] + (Gap(level + 1, f) + ItemsThen(items, level, f, rest))
  {
    ItemsThenIs(items, level, f, rest);
    Enclosed([OPEN_ARRAY], Gap(level + 1, f), SerializeItems(items, level, f), [CLOSE_ARRAY], rest);
  }

  lemma ObjectText(ms: seq<Member<Value>>, level: nat, f: Format, rest: seq<byte>)
    requires |ms| > 0
    ensures Serialize(Object(ms), level, f) + rest ==
      [OPEN_OBJECT] + (Gap(level + 1, f) + MembersThen(ms, level, f, rest))
  {
    MembersThenIs(ms, level, f, rest);
    Enclosed([OPEN_OBJECT], Gap(level + 1, f), SerializeMembers(ms, level, f), [CLOSE_OBJECT], rest);
  }

  // The round trip itself.

  lemma ArrayRoundTrip(items: seq<Value>, level: nat, f: Format, nesting: nat, rest: seq<byte>)
    requires Readable(Array(items), nesting)
    ensures ParseArray(Serialize(Array(items), level, f) + rest, nesting + 1) == Some((Array(items), rest))
    decreases Array(items), 0
  {
    if |items| == 0 {
      var t := [OPEN_ARRAY, CLOSE_ARRAY] + rest;
      assert t[1..][1..] == rest;
    } else {
      var gap, t := Gap(level + 1, f), ItemsThen(items, level, f, rest);
      FirstByte(items[0], level + 1, f);
      SkipGap(level + 1, f, t);
      ItemsRoundTrip(items, level, f, nesting + 1, rest);
      ArrayStep(gap + t, nesting + 1, t, items, rest);
      ArrayText(items, level, f, rest);
    }
  }

  lemma ItemsStart(items: seq<Value>, level: nat, f: Format, rest: seq<byte>)
    requires |items| > 0
    ensures Starts(Head(ItemsThen(items, level, f, rest)))
    ensures NumberEnds(AfterItem(items, level, f, rest))
  {
    FirstByte(items[0], level + 1, f);
  }

  lemma ItemRoundTrip(items: seq<Value>, level: nat, f: Format, nesting: nat, rest: seq<byte>)
    requires |items| > 0 && Readable(items[0], nesting)
    ensures ParseValue(ItemsThen(items, level, f, rest), nesting) == Some((items[0], AfterItem(items, level, f, rest)))
    decreases items, 0
  {
    ItemsStart(items, level, f, rest);
    ValueRoundTrip(items[0], level + 1, f, nesting, AfterItem(items, level, f, rest));
  }

  lemma ItemSeparator(items: seq<Value>, level: nat, f: Format, rest: seq<byte>)
    requires |items| > 0
    ensures Separator(AfterItem(items, level, f, rest), CLOSE_ARRAY) ==
      if |items| == 1 then (false, [CLOSE_ARRAY] + rest) else (true, ItemsThen(items[1..], level, f, rest))
  {
    if |items| == 1 {
      SkipGap(level, f, [CLOSE_ARRAY] + rest);
    } else {
      var more := ItemsThen(items[1..], level, f, rest);
      ItemsStart(items[1..], level, f, rest);
      SkipGap(level + 1, f, more);
      CommaThen(Gap(level + 1, f) + more, CLOSE_ARRAY);
    }
  }

  lemma {:induction false} ItemsRoundTrip(items: seq<Value>, level: nat, f: Format, nesting: nat, rest: seq<byte>)
    requires |items| > 0 && forall i :: 0 <= i < |items| ==> Readable(items[i], nesting)
    ensures ParseItems(ItemsThen(items, level, f, rest), nesting) == Some((items, [CLOSE_ARRAY] + rest))
    decreases items, 1
  {
    var v, t, after := items[0], ItemsThen(items, level, f, rest), AfterItem(items, level, f, rest);
    ItemsStart(items, level, f, rest);
    ItemRoundTrip(items, level, f, nesting, rest);
    ItemSeparator(items, level, f, rest);
    if |items| == 1 {
      LastItem(t, nesting, v, after, [CLOSE_ARRAY] + rest);
      assert [v] == items;
    } else {
      ItemsRoundTrip(items[1..], level, f, nesting, rest);
      NextItem(t, nesting, v, after, ItemsThen(items[1..], level, f, rest));
      assert [v] + items[1..] == items;
    }
  }

  lemma ObjectRoundTrip(ms: seq<Member<Value>>, level: nat, f: Format, nesting: nat, rest: seq<byte>)
    requires Readable(Object(ms), nesting)
    ensures ParseObject(Serialize(Object(ms), level, f) + rest, nesting + 1) == Some((Object(ms), rest))
    decreases Object(ms), 0
  {
    if |ms| == 0 {
      var t := [OPEN_OBJECT, CLOSE_OBJECT] + rest;
      assert t[1..][1..] == rest;
    } else {
      var gap, t := Gap(level + 1, f), MembersThen(ms, level, f, rest);
      SkipGap(level + 1, f, t);
      assert [] + ms == ms;
      MembersRoundTrip([], ms, level, f, nesting + 1, rest);
      ObjectStep(gap + t, nesting + 1, t, ms, rest);
      ObjectText(ms, level, f, rest);
    }
  }

  lemma MemberRoundTrip(done: seq<Member<Value>>, m: Member<Value>, level: nat, f: Format, nesting: nat,
      after: seq<byte>)
    requires Readable(m.value, nesting) && !HasKey(done, m.key)
    requires m.value.Number? ==> NumberEnds(after)
    ensures ParseMember(MemberThen(m, level, f, after), nesting, done) == Some((done + [m], after))
    decreases m, 2
  {
    var text := Serialize(m.value, level + 1, f) + after;
    QuoteRoundTrip(m.key, f.slashes, [COLON] + (KeyGap(f) + text));
    FirstByte(m.value, level + 1, f);
    SkipAllSpaces(KeyGap(f), text);
    ValueRoundTrip(m.value, level + 1, f, nesting, after);
    MemberStep(MemberThen(m, level, f, after), nesting, done, m, KeyGap(f), text, after);
  }

  lemma MembersStart(ms: seq<Member<Value>>, level: nat, f: Format, rest: seq<byte>)
    requires |ms| > 0
    ensures Head(MembersThen(ms, level, f, rest)) == QUOTE
    ensures NumberEnds(AfterMember(ms, level, f, rest))
  {
  }

  lemma MemberSeparator(ms: seq<Member<Value>>, level: nat, f: Format, rest: seq<byte>)
    requires |ms| > 0
    ensures Separator(AfterMember(ms, level, f, rest), CLOSE_OBJECT) ==
      if |ms| == 1 then (false, [CLOSE_OBJECT] + rest) else (true, MembersThen(ms[1..], level, f, rest))
  {
    if |ms| == 1 {
      SkipGap(level, f, [CLOSE_OBJECT] + rest);
    } else {
      var more := MembersThen(ms[1..], level, f, rest);
      MembersStart(ms[1..], level, f, rest);
      SkipGap(level + 1, f, more);
      CommaThen(Gap(level + 1, f) + more, CLOSE_OBJECT);
    }
  }

  lemma NotYetAdded(done: seq<Member<Value>>, ms: seq<Member<Value>>)
    requires |ms| > 0 && Unique(done + ms)
    ensures !HasKey(done, ms[0].key) && done + [ms[0]] + ms[1..] == done + ms
  {
    assert (done + ms)[|done|] == ms[0];
    assert forall i :: 0 <= i < |done| ==> (done + ms)[i] == done[i];
  }

  lemma {:induction false} MembersRoundTrip(done: seq<Member<Value>>, ms: seq<Member<Value>>, level: nat,
      f: Format, nesting: nat, rest: seq<byte>)
    requires |ms| > 0 && Unique(done + ms) && forall i :: 0 <= i < |ms| ==> Readable(ms[i].value, nesting)
    ensures ParseMembers(MembersThen(ms, level, f, rest), nesting, done) == Some((done + ms, [CLOSE_OBJECT] + rest))
    decreases ms, 3
  {
    var m, t, after := ms[0], MembersThen(ms, level, f, rest), AfterMember(ms, level, f, rest);
    MembersStart(ms, level, f, rest);
    NotYetAdded(done, ms);
    MemberRoundTrip(done, m, level, f, nesting, after);
    MemberSeparator(ms, level, f, rest);
    if |ms| == 1 {
      MembersStep(t, nesting, done, done + [m], after, false, [CLOSE_OBJECT] + rest);
      assert done + [m] == done + ms;
    } else {
      MembersRoundTrip(done + [m], ms[1..], level, f, nesting, rest);
      MembersStep(t, nesting, done, done + [m], after, true, MembersThen(ms[1..], level, f, rest));
    }
  }
}
