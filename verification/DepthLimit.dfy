/** The nesting limit is exact: a serialized tree is read back if and only if it is within the limit. */
module DepthLimit {
  import opened Bytes
  import opened Members
  import opened Values
  import opened JsonStrings
  import opened Serializer
  import opened Parser
  import opened RoundTrip

  ghost predicate TooDeep(v: Value, nesting: nat) {
    nesting > MAX_NESTING || !Fits(v, MAX_NESTING - nesting)
  }

  lemma ItemsStop(t: seq<byte>, nesting: nat)
    requires Head(t) != 0 && ParseValue(t, nesting).None?
    ensures ParseItems(t, nesting).None?
  {
  }

  lemma ArrayStops(t: seq<byte>, nesting: nat, t1: seq<byte>)
    requires SkipSpaces(t) == t1 && Head(t1) != CLOSE_ARRAY && ParseItems(t1, nesting).None?
    ensures ParseArray([OPEN_ARRAY] + t, nesting).None?
  {
    assert ([OPEN_ARRAY] + t)[1..] == t;
  }

  lemma MemberStops(t: seq<byte>, nesting: nat, done: seq<Member<Value>>, key: CString, gap: seq<byte>,
      text: seq<byte>)
    requires QuotedString(t) == Some((key, [COLON] + (gap + text)))
    requires ParseValue(gap + text, nesting).None?
    ensures ParseMember(t, nesting, done).None?
  {
    ColonStep(gap + text, nesting);
  }

  lemma ObjectStops(t: seq<byte>, nesting: nat, t1: seq<byte>)
    requires SkipSpaces(t) == t1 && Head(t1) != CLOSE_OBJECT && ParseMembers(t1, nesting, []).None?
    ensures ParseObject([OPEN_OBJECT] + t, nesting).None?
  {
    assert ([OPEN_OBJECT] + t)[1..] == t;
  }

  /** Leading spaces make no difference to a value. */
  lemma SpacesIgnored(w: seq<byte>, x: seq<byte>, nesting: nat)
    requires (forall i :: 0 <= i < |w| ==> IsSpace(w[i])) && !IsSpace(Head(x))
    ensures ParseValue(w + x, nesting) == ParseValue(x, nesting)
  {
    SkipAllSpaces(w, x);
    SkipTwice(w + x);
  }

  lemma {:induction false} TooDeepFails(v: Value, level: nat, f: Format, nesting: nat, rest: seq<byte>)
    requires WellFormed(v) && TooDeep(v, nesting)
    ensures ParseValue(Serialize(v, level, f) + rest, nesting).None?
    decreases v, 2
  {
    if nesting <= MAX_NESTING {
      var t := Serialize(v, level, f) + rest;
      FirstByte(v, level, f);
      assert SkipSpaces(t) == t;
      match v
      case Array(items) => ArrayTooDeep(items, level, f, nesting, rest);
      case Object(ms) => ObjectTooDeep(ms, level, f, nesting, rest);
    }
  }

  lemma DeepItem(items: seq<Value>, nesting: nat) returns (i: nat)
    requires nesting <= MAX_NESTING && TooDeep(Array(items), nesting)
    ensures i < |items| && TooDeep(items[i], nesting + 1)
  {
    i :| 0 <= i < |items| && TooDeep(items[i], nesting + 1);
  }

  lemma ArrayTooDeep(items: seq<Value>, level: nat, f: Format, nesting: nat, rest: seq<byte>)
    requires WellFormed(Array(items)) && nesting <= MAX_NESTING && TooDeep(Array(items), nesting)
    ensures ParseArray(Serialize(Array(items), level, f) + rest, nesting + 1).None?
    decreases Array(items), 1
  {
    var i := DeepItem(items, nesting);
    ItemsTooDeep(items, i, level, f, nesting + 1, rest);
    ArrayFails(items, level, f, nesting + 1, rest);
  }

  lemma ArrayFails(items: seq<Value>, level: nat, f: Format, nesting: nat, rest: seq<byte>)
    requires |items| > 0 && ParseItems(ItemsThen(items, level, f, rest), nesting).None?
    requires forall j :: 0 <= j < |items| ==> WellFormed(items[j])
    ensures ParseArray(Serialize(Array(items), level, f) + rest, nesting).None?
  {
    var gap, t := Gap(level + 1, f), ItemsThen(items, level, f, rest);
    ItemsStart(items, level, f, rest);
    SkipGap(level + 1, f, t);
    ArrayStops(gap + t, nesting, t);
    ArrayText(items, level, f, rest);
  }

  lemma {:induction false} ItemsTooDeep(items: seq<Value>, i: nat, level: nat, f: Format, nesting: nat,
      rest: seq<byte>)
    requires i < |items| && TooDeep(items[i], nesting)
    requires forall j :: 0 <= j < |items| ==> WellFormed(items[j])
    ensures ParseItems(ItemsThen(items, level, f, rest), nesting).None?
    decreases items, 0
  {
    var t, after := ItemsThen(items, level, f, rest), AfterItem(items, level, f, rest);
    ItemsStart(items, level, f, rest);
    if TooDeep(items[0], nesting) {
      TooDeepFails(items[0], level + 1, f, nesting, after);
      ItemsStop(t, nesting);
    } else {
      ItemRoundTrip(items, level, f, nesting, rest);
      ItemSeparator(items, level, f, rest);
      ItemsTooDeep(items[1..], i - 1, level, f, nesting, rest);
      NextItem(t, nesting, items[0], after, ItemsThen(items[1..], level, f, rest));
    }
  }

  lemma DeepMember(ms: seq<Member<Value>>, nesting: nat) returns (i: nat)
    requires nesting <= MAX_NESTING && TooDeep(Object(ms), nesting)
    ensures i < |ms| && TooDeep(ms[i].value, nesting + 1)
  {
    i :| 0 <= i < |ms| && TooDeep(ms[i].value, nesting + 1);
  }

  lemma ObjectTooDeep(ms: seq<Member<Value>>, level: nat, f: Format, nesting: nat, rest: seq<byte>)
    requires WellFormed(Object(ms)) && nesting <= MAX_NESTING && TooDeep(Object(ms), nesting)
    ensures ParseObject(Serialize(Object(ms), level, f) + rest, nesting + 1).None?
    decreases Object(ms), 1
  {
    AllMembersTooDeep(ms, level, f, nesting, rest);
    var gap, t := Gap(level + 1, f), MembersThen(ms, level, f, rest);
    MembersStart(ms, level, f, rest);
    SkipGap(level + 1, f, t);
    ObjectStops(gap + t, nesting + 1, t);
    ObjectText(ms, level, f, rest);
  }

  lemma AllMembersTooDeep(ms: seq<Member<Value>>, level: nat, f: Format, nesting: nat, rest: seq<byte>)
    requires WellFormed(Object(ms)) && nesting <= MAX_NESTING && TooDeep(Object(ms), nesting)
    ensures |ms| > 0 && ParseMembers(MembersThen(ms, level, f, rest), nesting + 1, []).None?
    decreases Object(ms), 0
  {
    var i := DeepMember(ms, nesting);
    assert [] + ms == ms;
    MembersTooDeep([], ms, i, level, f, nesting + 1, rest);
  }

  lemma MemberTooDeep(done: seq<Member<Value>>, m: Member<Value>, level: nat, f: Format, nesting: nat,
      after: seq<byte>)
    requires WellFormed(m.value) && TooDeep(m.value, nesting)
    ensures ParseMember(MemberThen(m, level, f, after), nesting, done).None?
    decreases m, 3
  {
    var text := Serialize(m.value, level + 1, f) + after;
    StringCodec.QuoteRoundTrip(m.key, f.slashes, [COLON] + (KeyGap(f) + text));
    FirstByte(m.value, level + 1, f);
    TooDeepFails(m.value, level + 1, f, nesting, after);
    SpacesIgnored(KeyGap(f), text, nesting);
    MemberStops(MemberThen(m, level, f, after), nesting, done, m.key, KeyGap(f), text);
  }

  lemma {:induction false} MembersTooDeep(done: seq<Member<Value>>, ms: seq<Member<Value>>, i: nat, level: nat,
      f: Format, nesting: nat, rest: seq<byte>)
    requires i < |ms| && TooDeep(ms[i].value, nesting) && Unique(done + ms)
    requires forall j :: 0 <= j < |ms| ==> WellFormed(ms[j].value)
    ensures ParseMembers(MembersThen(ms, level, f, rest), nesting, done).None?
    decreases ms, 0
  {
    var t, after := MembersThen(ms, level, f, rest), AfterMember(ms, level, f, rest);
    MembersStart(ms, level, f, rest);
    NotYetAdded(done, ms);
    if TooDeep(ms[0].value, nesting) {
      MemberTooDeep(done, ms[0], level, f, nesting, after);
    } else {
      MemberRoundTrip(done, ms[0], level, f, nesting, after);
      MemberSeparator(ms, level, f, rest);
      MembersTooDeep(done + [ms[0]], ms[1..], i - 1, level, f, nesting, rest);
      MembersStep(t, nesting, done, done + [ms[0]], after, true, MembersThen(ms[1..], level, f, rest));
    }
  }

  /** Both directions at once, through the entry point. */
  lemma ReadBackExactly(v: Value, f: Format, rest: seq<byte>)
    requires WellFormed(v) && (v.Number? ==> NumberEnds(rest))
    ensures ParseText(Serialize(v, 0, f) + rest) == if Fits(v, 2048) then Some(v) else None
  {
    FirstByte(v, 0, f);
    if Fits(v, 2048) {
      ValueRoundTrip(v, 0, f, 0, rest);
    } else {
      TooDeepFails(v, 0, f, 0, rest);
    }
  }
}
