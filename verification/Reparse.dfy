/** Every value that any text parses to is well-formed and within the nesting limit, so it survives a round trip. */
module Reparse {
  import opened Bytes
  import opened Members
  import opened Values
  import opened Serializer
  import opened Parser
  import opened RoundTrip
  import opened DepthLimit

  lemma {:induction false} ParsedReadable(t: seq<byte>, nesting: nat)
    ensures ParseValue(t, nesting).Some? ==> Readable(ParseValue(t, nesting).value.0, nesting)
    decreases |t|, 3
  {
    if nesting <= MAX_NESTING {
      var t1 := SkipSpaces(t);
      if Head(t1) == 0x7B {
        ParsedObject(t1, nesting + 1);
      } else if Head(t1) == 0x5B {
        ParsedArray(t1, nesting + 1);
      } else {
        ParsedScalar(t, nesting);
      }
    }
  }

  lemma ParsedScalar(t: seq<byte>, nesting: nat)
    requires nesting <= MAX_NESTING && Head(SkipSpaces(t)) != 0x7B && Head(SkipSpaces(t)) != 0x5B
    ensures ParseValue(t, nesting).Some? ==> Readable(ParseValue(t, nesting).value.0, nesting)
  {
    var t1 := SkipSpaces(t);
    if Head(t1) == 0x2D || IsDigit(Head(t1)) {
      ParsedNumber(t1);
    }
  }

  lemma ParsedNumber(t: seq<byte>)
    ensures ParseNumber(t).Some? ==> ParseNumber(t).value.0.Number? && WellFormed(ParseNumber(t).value.0)
  {
  }

  lemma ParsedArray(t: seq<byte>, nesting: nat)
    requires Head(t) == 0x5B && 0 < nesting <= MAX_NESTING + 1
    ensures ParseArray(t, nesting).Some? ==> Readable(ParseArray(t, nesting).value.0, nesting - 1)
    decreases |t|, 2
  {
    var t1 := SkipSpaces(t[1..]);
    ParsedItems(t1, nesting);
    ArrayReadable([], nesting);
    if Head(t1) != 0x5D && ParseItems(t1, nesting).Some? {
      ArrayReadable(ParseItems(t1, nesting).value.0, nesting);
    }
  }

  lemma ArrayReadable(items: seq<Value>, nesting: nat)
    requires 0 < nesting <= MAX_NESTING + 1 && forall i :: 0 <= i < |items| ==> Readable(items[i], nesting)
    ensures Readable(Array(items), nesting - 1)
  {
    if |items| > 0 {
      assert Readable(items[0], nesting);
    }
  }

  lemma ObjectReadable(ms: seq<Member<Value>>, nesting: nat)
    requires 0 < nesting <= MAX_NESTING + 1 && MembersReadable(ms, nesting)
    ensures Readable(Object(ms), nesting - 1)
  {
    if |ms| > 0 {
      assert Readable(ms[0].value, nesting);
    }
  }

  lemma {:induction false} ParsedItems(t: seq<byte>, nesting: nat)
    ensures ParseItems(t, nesting).Some? ==>
      forall i :: 0 <= i < |ParseItems(t, nesting).value.0| ==> Readable(ParseItems(t, nesting).value.0[i], nesting)
    decreases |t|, 4
  {
    if Head(t) != 0 && ParseItems(t, nesting).Some? {
      ParsedReadable(t, nesting);
      var t1 := ParseValue(t, nesting).value.1;
      var (more, t2) := Separator(t1, 0x5D);
      if more {
        ParsedItems(t2, nesting);
      }
    }
  }

  lemma ParsedObject(t: seq<byte>, nesting: nat)
    requires Head(t) == 0x7B && 0 < nesting <= MAX_NESTING + 1
    ensures ParseObject(t, nesting).Some? ==> Readable(ParseObject(t, nesting).value.0, nesting - 1)
    decreases |t|, 2
  {
    var t1 := SkipSpaces(t[1..]);
    ParsedMembers(t1, nesting, []);
    ObjectReadable([], nesting);
    if Head(t1) != 0x7D && ParseMembers(t1, nesting, []).Some? {
      ObjectReadable(ParseMembers(t1, nesting, []).value.0, nesting);
    }
  }

  ghost predicate MembersReadable(ms: seq<Member<Value>>, nesting: nat) {
    Unique(ms) && forall i :: 0 <= i < |ms| ==> Readable(ms[i].value, nesting)
  }

  lemma ParsedColonValue(t: seq<byte>, nesting: nat)
    ensures ParseColonValue(t, nesting).Some? ==> Readable(ParseColonValue(t, nesting).value.0, nesting)
    decreases |t|, 4
  {
    var t1 := SkipSpaces(t);
    if Head(t1) == 0x3A {
      ParsedReadable(t1[1..], nesting);
    }
  }

  lemma ParsedMember(t: seq<byte>, nesting: nat, ms: seq<Member<Value>>)
    requires MembersReadable(ms, nesting)
    ensures ParseMember(t, nesting, ms).Some? ==> MembersReadable(ParseMember(t, nesting, ms).value.0, nesting)
    decreases |t|, 4
  {
    match JsonStrings.QuotedString(t)
    case None =>
    case Some((key, t1)) =>
      ParsedColonValue(t1, nesting);
  }

  lemma {:induction false} ParsedMembers(t: seq<byte>, nesting: nat, ms: seq<Member<Value>>)
    requires MembersReadable(ms, nesting)
    ensures ParseMembers(t, nesting, ms).Some? ==> MembersReadable(ParseMembers(t, nesting, ms).value.0, nesting)
    decreases |t|, 5
  {
    if Head(t) != 0 && ParseMember(t, nesting, ms).Some? {
      ParsedMember(t, nesting, ms);
      var (ms', t1) := ParseMember(t, nesting, ms).value;
      var (more, t2) := Separator(t1, 0x7D);
      if more {
        ParsedMembers(t2, nesting, ms');
      }
    }
  }

  /** Serializing and parsing again loses nothing, for every text that parses at all. */
  lemma ParseSerializeParse(t: seq<byte>, f: Format)
    ensures ParseText(t).Some? ==> ParseText(Serialize(ParseText(t).value, 0, f)) == ParseText(t)
  {
    if ParseText(t).Some? {
      ParsedReadable(SkipMark(t), 0);
      var v := ParseText(t).value;
      ReadBackExactly(v, f, []);
      assert Serialize(v, 0, f) + [] == Serialize(v, 0, f);
    }
  }
}
