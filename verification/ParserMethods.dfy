/** The parser as it runs: a cursor into the text, and a hash table for every object. */
module ParserMethods {
  import opened Bytes
  import opened Members
  import opened Values
  import opened JsonStrings
  import opened Parser
  import opened ObjectTable
  import StringReader

  /** A cursor's outcome is the one that the functions prescribe. */
  ghost predicate Agrees<T>(spec: Result<T>, r: Option<T>, s: seq<byte>, pos: nat) {
    match spec
    case None => r.None?
    case Some((v, rest)) => r == Some(v) && pos <= |s| && s[pos..] == rest
  }

  method SkipWhitespaces(s: seq<byte>, pos: nat) returns (pos': nat)
    requires pos <= |s|
    ensures pos <= pos' <= |s| && s[pos'..] == SkipSpaces(s[pos..])
  {
    pos' := pos;
    ghost var t := s[pos..];
    while IsSpace(At(s, pos'))
      invariant pos <= pos' <= |s| && t == s[pos'..]
      invariant SkipSpaces(t) == SkipSpaces(s[pos..])
      decreases |s| - pos'
    {
      pos' := pos' + 1;
      t := t[1..];
    }
  }

  method ParseValueAt(s: seq<byte>, pos: nat, nesting: nat, hash: CString -> nat)
    returns (r: Option<Value>, pos': nat)
    requires pos <= |s|
    ensures Agrees(ParseValue(s[pos..], nesting), r, s, pos')
    ensures r.Some? ==> pos <= pos' <= |s|
    decreases |s| - pos, 3
  {
    r, pos' := None, pos;
    if nesting > MAX_NESTING {
      return;
    }
    pos' := SkipWhitespaces(s, pos);
    var c := At(s, pos');
    assert Head(s[pos'..]) == c;
    if c == 0x7B {
      r, pos' := ParseObjectAt(s, pos', nesting + 1, hash);
    } else if c == 0x5B {
      r, pos' := ParseArrayAt(s, pos', nesting + 1, hash);
    } else {
      r, pos' := ParseScalarAt(s, pos');
    }
  }

  method ParseScalarAt(s: seq<byte>, pos: nat) returns (r: Option<Value>, pos': nat)
    requires pos <= |s| && !IsSpace(At(s, pos)) && At(s, pos) != 0x7B && At(s, pos) != 0x5B
    ensures Agrees(ParseValue(s[pos..], 0), r, s, pos')
    ensures r.Some? ==> pos <= pos' <= |s|
  {
    r, pos' := None, pos;
    var t := s[pos..];
    var c := At(s, pos);
    assert SkipSpaces(t) == t && Head(t) == c;
    if c == QUOTE {
      var str;
      str, pos' := StringReader.GetQuotedString(s, pos);
      if str.Some? {
        r := Some(String(str.value));
      }
    } else {
      var spec :=
        if c == 0x66 || c == 0x74 then ParseBoolean(t)
        else if c == 0x2D || IsDigit(c) then ParseNumber(t)
        else if c == 0x6E then ParseNull(t)
        else None;
      if spec.Some? {
        r, pos' := Some(spec.value.0), |s| - |spec.value.1|;
      }
    }
  }

  /** Items already read, in front of the outcome for the rest. */
  ghost function Before(items: seq<Value>, r: Result<seq<Value>>): Result<seq<Value>> {
    match r
    case None => None
    case Some((vs, rest)) => Some((items + vs, rest))
  }

  method SeparatorAt(s: seq<byte>, pos: nat, close: byte) returns (more: bool, pos': nat)
    requires pos <= |s|
    ensures pos <= pos' <= |s| && (more ==> pos < pos')
    ensures (more, s[pos'..]) == Separator(s[pos..], close)
  {
    pos' := SkipWhitespaces(s, pos);
    if At(s, pos') != 0x2C {
      return false, pos';
    }
    assert s[pos'..][1..] == s[pos' + 1..];
    pos' := SkipWhitespaces(s, pos' + 1);
    more := At(s, pos') != close;
  }

  /** What one round of the item loop means for the whole loop. */
  lemma ItemRound(items: seq<Value>, t: seq<byte>, nesting: nat)
    requires Head(t) != 0
    ensures ParseValue(t, nesting).None? ==> Before(items, ParseItems(t, nesting)).None?
    ensures ParseValue(t, nesting).Some? ==>
      var (v, t1) := ParseValue(t, nesting).value;
      var (more, t2) := Separator(t1, 0x5D);
      Before(items, ParseItems(t, nesting)) ==
        if more then Before(items + [v], ParseItems(t2, nesting)) else Some((items + [v], t2))
  {
    if ParseValue(t, nesting).Some? {
      var (v, t1) := ParseValue(t, nesting).value;
      var r := ParseItems(Separator(t1, 0x5D).1, nesting);
      if r.Some? {
        assert items + ([v] + r.value.0) == items + [v] + r.value.0;
      }
    }
  }

  method ParseItemsAt(s: seq<byte>, pos: nat, nesting: nat, hash: CString -> nat)
    returns (r: Option<seq<Value>>, pos': nat)
    requires pos <= |s|
    ensures Agrees(ParseItems(s[pos..], nesting), r, s, pos')
    ensures r.Some? ==> pos <= pos' <= |s|
    decreases |s| - pos, 4
  {
    ghost var spec := ParseItems(s[pos..], nesting);
    var items: seq<Value> := [];
    pos' := pos;
    assert spec.Some? ==> [] + spec.value.0 == spec.value.0;
    while At(s, pos') != 0
      invariant pos <= pos' <= |s|
      invariant spec == Before(items, ParseItems(s[pos'..], nesting))
      decreases |s| - pos'
    {
      ItemRound(items, s[pos'..], nesting);
      var v;
      v, pos' := ParseValueAt(s, pos', nesting, hash);
      if v.None? {
        return None, pos';
      }
      items := items + [v.value];
      var more;
      more, pos' := SeparatorAt(s, pos', 0x5D);
      if !more {
        return Some(items), pos';
      }
    }
    assert items + [] == items;
    return Some(items), pos';
  }

  method ParseArrayAt(s: seq<byte>, pos: nat, nesting: nat, hash: CString -> nat)
    returns (r: Option<Value>, pos': nat)
    requires pos < |s| && s[pos] == 0x5B
    ensures Agrees(ParseArray(s[pos..], nesting), r, s, pos')
    ensures r.Some? ==> pos <= pos' <= |s|
    decreases |s| - pos, 2
  {
    assert s[pos..][1..] == s[pos + 1..];
    pos' := SkipWhitespaces(s, pos + 1);
    if At(s, pos') == 0x5D {
      assert s[pos'..][1..] == s[pos' + 1..];
      return Some(Array([])), pos' + 1;
    }
    var items;
    items, pos' := ParseItemsAt(s, pos', nesting, hash);
    if items.None? {
      return None, pos';
    }
    pos' := SkipWhitespaces(s, pos');
    if At(s, pos') != 0x5D {
      return None, pos';
    }
    assert s[pos'..][1..] == s[pos' + 1..];
    return Some(Array(items.value)), pos' + 1;
  }

  method ParseColonValueAt(s: seq<byte>, pos: nat, nesting: nat, hash: CString -> nat)
    returns (r: Option<Value>, pos': nat)
    requires pos <= |s|
    ensures Agrees(ParseColonValue(s[pos..], nesting), r, s, pos')
    ensures r.Some? ==> pos <= pos' <= |s|
    decreases |s| - pos, 4
  {
    pos' := SkipWhitespaces(s, pos);
    if At(s, pos') != 0x3A {
      return None, pos';
    }
    assert s[pos'..][1..] == s[pos' + 1..];
    r, pos' := ParseValueAt(s, pos' + 1, nesting, hash);
  }

  method ParsePairAt(s: seq<byte>, pos: nat, nesting: nat, hash: CString -> nat)
    returns (r: Option<Member<Value>>, pos': nat)
    requires pos <= |s|
    ensures Agrees(ParsePair(s[pos..], nesting), r, s, pos')
    ensures r.Some? ==> pos < pos' <= |s|
    decreases |s| - pos, 5
  {
    ghost var t := s[pos..];
    var key;
    key, pos' := StringReader.GetQuotedString(s, pos);
    if key.None? || !NulFree(key.value) {
      return None, pos';
    }
    ghost var t1 := s[pos'..];
    assert QuotedString(t) == Some((key.value, t1)) && |t1| < |t|;
    var v;
    v, pos' := ParseColonValueAt(s, pos', nesting, hash);
    r := if v.None? then None else Some(Member(key.value, v.value));
  }

  /** A pair that was read goes into the table. */
  method AddPair(table: Table<Value>, m: Member<Value>, ghost t: seq<byte>, ghost nesting: nat, ghost t1: seq<byte>)
    returns (ok: bool)
    requires table.Valid() && ParsePair(t, nesting) == Some((m, t1))
    modifies table.Repr()
    ensures table.Valid() && fresh(table.Repr() - old(table.Repr()))
    ensures ok <==> ParseMember(t, nesting, old(table.Items())).Some?
    ensures ok ==> ParseMember(t, nesting, old(table.Items())).value == (table.Items(), t1)
  {
    MemberOfPair(t, nesting, table.Items(), m, t1);
    ok := table.Add(m.key, m.value);
  }

  /** The next pair goes into the table. */
  method ParseMemberAt(s: seq<byte>, pos: nat, nesting: nat, table: Table<Value>) returns (ok: bool, pos': nat)
    requires pos <= |s| && table.Valid()
    modifies table.Repr()
    ensures table.Valid() && fresh(table.Repr() - old(table.Repr()))
    ensures ok ==> pos < pos' <= |s|
    ensures ok <==> ParseMember(s[pos..], nesting, old(table.Items())).Some?
    ensures ok ==> ParseMember(s[pos..], nesting, old(table.Items())).value == (table.Items(), s[pos'..])
    decreases |s| - pos, 6
  {
    var m;
    ghost var t := s[pos..];
    m, pos' := ParsePairAt(s, pos, nesting, table.hash);
    if m.None? {
      return false, pos';
    }
    ok := AddPair(table, m.value, t, nesting, s[pos'..]);
  }

  lemma MemberOfPair(t: seq<byte>, nesting: nat, ms: seq<Member<Value>>, m: Member<Value>, t1: seq<byte>)
    requires ParsePair(t, nesting) == Some((m, t1))
    ensures ParseMember(t, nesting, ms) ==
      match Members.Add(ms, m.key, m.value) { case None => None case Some(ms') => Some((ms', t1)) }
  {
  }

  /** What one round of the member loop means for the whole loop. */
  lemma MemberRound(t: seq<byte>, nesting: nat, ms: seq<Member<Value>>)
    requires Head(t) != 0
    ensures ParseMember(t, nesting, ms).None? ==> ParseMembers(t, nesting, ms).None?
    ensures ParseMember(t, nesting, ms).Some? ==>
      var (ms', t1) := ParseMember(t, nesting, ms).value;
      var (more, t2) := Separator(t1, 0x7D);
      ParseMembers(t, nesting, ms) == if more then ParseMembers(t2, nesting, ms') else Some((ms', t2))
  {
  }

  /**
   * One round of the member loop: a pair and the comma after it, if there is one.  `spec` is what
   * the loop has to come to.
   */
  method NextMemberAt(
      s: seq<byte>, pos: nat, nesting: nat, table: Table<Value>, ghost spec: Result<seq<Member<Value>>>)
    returns (ok: bool, more: bool, pos': nat)
    requires pos <= |s| && At(s, pos) != 0 && table.Valid() && spec == ParseMembers(s[pos..], nesting, table.Items())
    modifies table.Repr()
    ensures table.Valid() && fresh(table.Repr() - old(table.Repr()))
    ensures ok ==> pos < pos' <= |s|
    ensures !ok ==> spec.None?
    ensures ok && more ==> spec == ParseMembers(s[pos'..], nesting, table.Items())
    ensures ok && !more ==> spec == Some((table.Items(), s[pos'..]))
    decreases |s| - pos, 7
  {
    MemberRound(s[pos..], nesting, table.Items());
    more := false;
    ok, pos' := ParseMemberAt(s, pos, nesting, table);
    if !ok {
      return;
    }
    more, pos' := SeparatorAt(s, pos', 0x7D);
  }

  lemma MembersEnd(t: seq<byte>, nesting: nat, ms: seq<Member<Value>>)
    requires Head(t) == 0
    ensures ParseMembers(t, nesting, ms) == Some((ms, t))
  {
  }

  /** Where the member loop stands. */
  datatype Progress = Refused | Finished | Ongoing

  ghost predicate Stands(
      st: Progress, s: seq<byte>, pos: nat, nesting: nat, ms: seq<Member<Value>>, spec: Result<seq<Member<Value>>>)
  {
    && pos <= |s|
    && match st
       case Refused => spec.None?
       case Finished => spec == Some((ms, s[pos..]))
       case Ongoing => spec == ParseMembers(s[pos..], nesting, ms)
  }

  /** A round, or the end of the text. */
  method MemberOrEnd(
      s: seq<byte>, pos: nat, nesting: nat, table: Table<Value>, ghost spec: Result<seq<Member<Value>>>)
    returns (st: Progress, pos': nat)
    requires table.Valid() && Stands(Ongoing, s, pos, nesting, table.Items(), spec)
    modifies table.Repr()
    ensures table.Valid() && fresh(table.Repr() - old(table.Repr()))
    ensures Stands(st, s, pos', nesting, table.Items(), spec) && pos <= pos' && (st.Ongoing? ==> pos < pos')
    decreases |s| - pos, 8
  {
    if At(s, pos) == 0 {
      MembersEnd(s[pos..], nesting, table.Items());
      return Finished, pos;
    }
    var ok, more;
    ok, more, pos' := NextMemberAt(s, pos, nesting, table, spec);
    if !ok {
      return Refused, pos;
    }
    st := if more then Ongoing else Finished;
  }

  method MemberLoop(
      s: seq<byte>, pos: nat, nesting: nat, table: Table<Value>, ghost spec: Result<seq<Member<Value>>>)
    returns (st: Progress, pos': nat)
    requires table.Valid() && Stands(Ongoing, s, pos, nesting, table.Items(), spec)
    modifies table.Repr()
    ensures table.Valid() && fresh(table.Repr() - old(table.Repr()))
    ensures Stands(st, s, pos', nesting, table.Items(), spec) && pos <= pos' && !st.Ongoing?
    decreases |s| - pos, 9
  {
    st, pos' := Ongoing, pos;
    while st.Ongoing?
      invariant table.Valid() && fresh(table.Repr() - old(table.Repr()))
      invariant pos <= pos' && Stands(st, s, pos', nesting, table.Items(), spec)
      decreases st.Ongoing?, |s| - pos'
    {
      st, pos' := MemberOrEnd(s, pos', nesting, table, spec);
    }
  }

  method ParseMembersAt(s: seq<byte>, pos: nat, nesting: nat, table: Table<Value>) returns (ok: bool, pos': nat)
    requires pos <= |s| && table.Valid()
    modifies table.Repr()
    ensures table.Valid() && fresh(table.Repr() - old(table.Repr()))
    ensures ok ==> pos <= pos' <= |s|
    ensures ok <==> ParseMembers(s[pos..], nesting, old(table.Items())).Some?
    ensures ok ==> ParseMembers(s[pos..], nesting, old(table.Items())).value == (table.Items(), s[pos'..])
    decreases |s| - pos, 10
  {
    var st;
    st, pos' := MemberLoop(s, pos, nesting, table, ParseMembers(s[pos..], nesting, table.Items()));
    ok := st.Finished?;
  }

  /** The closing bracket behind the members. */
  method CloseObjectAt(s: seq<byte>, pos: nat, table: Table<Value>) returns (r: Option<Value>, pos': nat)
    requires pos <= |s| && table.Valid()
    ensures var t := SkipSpaces(s[pos..]);
      Agrees(if Head(t) != 0x7D then None else Some((Object(table.Items()), t[1..])), r, s, pos')
    ensures r.Some? ==> pos <= pos' <= |s|
  {
    pos' := SkipWhitespaces(s, pos);
    if At(s, pos') != 0x7D {
      return None, pos';
    }
    assert s[pos'..][1..] == s[pos' + 1..];
    var members := table.ToMembers();
    return Some(Object(members)), pos' + 1;
  }

  method ParseObjectAt(s: seq<byte>, pos: nat, nesting: nat, hash: CString -> nat)
    returns (r: Option<Value>, pos': nat)
    requires pos < |s| && s[pos] == 0x7B
    ensures Agrees(ParseObject(s[pos..], nesting), r, s, pos')
    ensures r.Some? ==> pos <= pos' <= |s|
    decreases |s| - pos, 2
  {
    assert s[pos..][1..] == s[pos + 1..];
    pos' := SkipWhitespaces(s, pos + 1);
    if At(s, pos') == 0x7D {
      assert s[pos'..][1..] == s[pos' + 1..];
      return Some(Object([])), pos' + 1;
    }
    var table := new Table<Value>(hash, 0);
    var ok;
    ok, pos' := ParseMembersAt(s, pos', nesting, table);
    if !ok {
      return None, pos';
    }
    r, pos' := CloseObjectAt(s, pos', table);
  }

  /** The entry point, for every hash function. */
  method ParseStringText(s: seq<byte>, hash: CString -> nat) returns (r: Option<Value>)
    ensures r == ParseText(s)
  {
    var pos := if |s| >= 3 && s[0] == 0xEF && s[1] == 0xBB && s[2] == 0xBF then 3 else 0;
    assert s[0..] == s;
    var end;
    r, end := ParseValueAt(s, pos, 0, hash);
  }
}
