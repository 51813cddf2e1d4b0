/** Dotted names: reading, setting and removing a value several objects deep. */
module DottedPaths {
  import opened Bytes
  import opened Members
  import opened Values

  const DOT: byte := 0x2E

  type Node = seq<Member<Value>>
  const NO_NAME: CString := []
  type Path = p: seq<CString> | |p| > 0 witness [NO_NAME]

  /** The position of the first dot. */
  function FirstDot(name: CString): (r: Option<nat>)
    ensures r.Some? ==> r.value < |name| && name[r.value] == DOT
  {
    if |name| == 0 then None
    else if name[0] == DOT then Some(0)
    else
      match FirstDot(name[1..])
      case None => None
      case Some(d) => Some(d + 1)
  }

  // ---- The operations, on names ------------------------------------------------------------

  /** A missing object has no values. */
  function DotGet(o: Option<Node>, name: CString): (r: Option<Value>)
    decreases |name|
  {
    match FirstDot(name)
    case None => if o.None? then None else Lookup(o.value, name)
    case Some(d) =>
      var sub := if o.None? then None else Lookup(o.value, name[..d]);
      DotGet(if sub.Some? && sub.value.Object? then Some(sub.value.members) else None, name[d + 1..])
  }

  /** Objects on the way are created; a value on the way that is no object is an error. */
  function DotSet(o: Node, name: CString, v: Value): (r: Option<Node>)
    decreases |name|
  {
    match FirstDot(name)
    case None => Some(Put(o, name, v))
    case Some(d) =>
      var key, rest := name[..d], name[d + 1..];
      match Lookup<Value>(o, key)
      case Some(Object(sub)) =>
        var sub' := DotSet(sub, rest, v);
        if sub'.None? then None else Some(Put(o, key, Object(sub'.value)))
      case Some(_) => None
      case None =>
        var sub' := DotSet([], rest, v);
        if sub'.None? then None else Add(o, key, Object(sub'.value))
  }

  function DotRemove(o: Node, name: CString): (r: Option<Node>)
    decreases |name|
  {
    match FirstDot(name)
    case None => Remove(o, name)
    case Some(d) =>
      var key, rest := name[..d], name[d + 1..];
      match Lookup<Value>(o, key)
      case Some(Object(sub)) =>
        var sub' := DotRemove(sub, rest);
        if sub'.None? then None else Some(Put(o, key, Object(sub'.value)))
      case _ => None
  }

  // ---- The same on lists of segments ----------------------------------------------------------

  function Split(name: CString): (p: Path)
    decreases |name|
  {
    match FirstDot(name)
    case None => [name]
    case Some(d) => [name[..d]] + Split(name[d + 1..])
  }

  function Get(o: Node, p: Path): (r: Option<Value>)
    decreases |p|
  {
    if |p| == 1 then Lookup(o, p[0])
    else
      match Lookup<Value>(o, p[0])
      case Some(Object(sub)) => Get(sub, p[1..])
      case _ => None
  }

  function Set(o: Node, p: Path, v: Value): (r: Option<Node>)
    decreases |p|
  {
    if |p| == 1 then Some(Put(o, p[0], v))
    else
      var sub := Lookup(o, p[0]);
      if sub.Some? && !sub.value.Object? then None
      else
        var sub' := Set(if sub.Some? then sub.value.members else [], p[1..], v);
        if sub'.None? then None else Some(Put(o, p[0], Object(sub'.value)))
  }

  function Unset(o: Node, p: Path): (r: Option<Node>)
    decreases |p|
  {
    if |p| == 1 then Remove(o, p[0])
    else
      match Lookup<Value>(o, p[0])
      case Some(Object(sub)) =>
        var sub' := Unset(sub, p[1..]);
        if sub'.None? then None else Some(Put(o, p[0], Object(sub'.value)))
      case _ => None
  }

  // ---- The segments are those between the dots ------------------------------------------------

  /** The segments with a dot between each two. */
  function Join(p: seq<CString>): (name: seq<byte>)
    requires |p| > 0
  {
    if |p| == 1 then p[0] else p[0] + [0x2E] + Join(p[1..])
  }

  ghost predicate NoDots(p: seq<CString>) {
    forall i :: 0 <= i < |p| ==> 0x2E !in p[i]
  }

  /** The dot that is found is the first one, and none is found exactly when there is none. */
  lemma {:induction false} FirstDotExactly(name: CString, r: Option<nat>)
    ensures FirstDot(name) == r <==>
      if r.None? then 0x2E !in name else r.value < |name| && name[r.value] == 0x2E && 0x2E !in name[..r.value]
  {
    if |name| > 0 && name[0] != DOT {
      var rest := name[1..];
      assert name == [name[0]] + rest;
      if r.Some? && 0 < r.value < |name| {
        FirstDotExactly(rest, Some(r.value - 1));
        assert name[..r.value] == [name[0]] + rest[..r.value - 1];
      } else {
        FirstDotExactly(rest, None);
      }
    } else if r.Some? && 0 < r.value < |name| {
      assert name[..r.value][0] == name[0];
    }
  }

  lemma JoinTwo(a: CString, p: Path, rest: CString)
    requires NoDots(p) && Join(p) == rest && 0x2E !in a
    ensures NoDots([a] + p) && Join([a] + p) == a + [0x2E] + rest
  {
    assert ([a] + p)[1..] == p;
  }

  lemma {:induction false} SplitJoins(name: CString)
    ensures NoDots(Split(name)) && Join(Split(name)) == name
    decreases |name|
  {
    FirstDotExactly(name, FirstDot(name));
    match FirstDot(name)
    case None =>
    case Some(d) =>
      SplitJoins(name[d + 1..]);
      JoinTwo(name[..d], Split(name[d + 1..]), name[d + 1..]);
      assert name == name[..d] + [DOT] + name[d + 1..];
  }

  lemma FirstDotIs(a: CString, rest: CString, name: CString)
    requires 0x2E !in a && name == a + [0x2E] + rest
    ensures FirstDot(name) == Some(|a|) && name[..|a|] == a && name[|a| + 1..] == rest
  {
    FirstDotExactly(name, Some(|a|));
  }

  lemma JoinNulFree(p: Path)
    ensures NulFree(Join(p))
  {
  }

  lemma {:induction false} JoinSplits(p: Path, name: CString)
    requires NoDots(p) && Join(p) == name
    ensures Split(name) == p
    decreases |p|
  {
    if |p| > 1 {
      JoinNulFree(p[1..]);
      FirstDotIs(p[0], Join(p[1..]), name);
      JoinSplits(p[1..], Join(p[1..]));
    }
  }

  /** A name has exactly the segments that give it when they are joined with dots. */
  lemma SplitExactly(name: CString, p: Path)
    ensures Split(name) == p <==> NoDots(p) && Join(p) == name
  {
    SplitJoins(name);
    if NoDots(p) && Join(p) == name {
      JoinSplits(p, name);
    }
  }

  /** From `o` each segment names a member, the last one the value and all others an object. */
  ghost predicate Leads(o: Node, p: Path, v: Value)
    decreases |p|
  {
    if |p| == 1 then Member(p[0], v) in o
    else exists sub: Node :: Member(p[0], Object(sub)) in o && Leads(sub, p[1..], v)
  }

  lemma LookupExactly(o: Node, k: CString, v: Value)
    requires Unique(o)
    ensures Lookup(o, k) == Some(v) <==> Member(k, v) in o
  {
    if Member(k, v) in o {
      var i :| 0 <= i < |o| && o[i] == Member(k, v);
      LookupUnique(o, i);
    }
  }

  lemma {:induction false} GetExactly(o: Node, p: Path, v: Value)
    requires WellFormed(Object(o))
    ensures Get(o, p) == Some(v) <==> Leads(o, p, v)
    decreases |p|
  {
    if |p| == 1 {
      LookupExactly(o, p[0], v);
    } else {
      forall sub: Node
        ensures Member(p[0], Object(sub)) in o <==> Lookup(o, p[0]) == Some(Object(sub))
        ensures Member(p[0], Object(sub)) in o ==> (Get(sub, p[1..]) == Some(v) <==> Leads(sub, p[1..], v))
      {
        LookupExactly(o, p[0], Object(sub));
        if Member(p[0], Object(sub)) in o {
          GetExactly(sub, p[1..], v);
        }
      }
    }
  }

  /** A dotted get gives a value exactly when the segments of the name lead to it. */
  lemma DotGetExactly(o: Node, name: CString, p: Path, v: Value)
    requires WellFormed(Object(o)) && NoDots(p) && Join(p) == name
    ensures DotGet(Some(o), name) == Some(v) <==> Leads(o, p, v)
  {
    JoinSplits(p, name);
    NamesArePaths(o, name, v);
    GetExactly(o, p, v);
  }

  lemma {:induction false} GetNothing(name: CString)
    ensures DotGet(None, name) == None
    decreases |name|
  {
    if FirstDot(name).Some? {
      GetNothing(name[FirstDot(name).value + 1..]);
    }
  }

  /** The operations on names are those on the segments of the names. */
  lemma {:induction false} NamesArePaths(o: Node, name: CString, v: Value)
    ensures DotGet(Some(o), name) == Get(o, Split(name))
    ensures DotSet(o, name, v) == Set(o, Split(name), v)
    ensures DotRemove(o, name) == Unset(o, Split(name))
    decreases |name|
  {
    match FirstDot(name)
    case None =>
    case Some(d) =>
      var rest := name[d + 1..];
      assert Split(name)[1..] == Split(rest);
      GetNothing(rest);
      NamesArePaths([], rest, v);
      match Lookup<Value>(o, name[..d])
      case Some(Object(sub)) => NamesArePaths(sub, rest, v);
      case _ =>
  }

  // ---- Laws ------------------------------------------------------------------------------------

  /** Somewhere before the end of the path there is a value that is no object. */
  ghost predicate Blocked(o: Node, p: Path) {
    exists i :: 1 <= i < |p| && Get(o, p[..i]).Some? && !Get(o, p[..i]).value.Object?
  }

  lemma GetDeeper(o: Node, p: Path, i: nat)
    requires 1 < i <= |p|
    ensures Get(o, p[..i]) ==
      match Lookup<Value>(o, p[0]) { case Some(Object(sub)) => Get(sub, p[1..][..i - 1]) case _ => None }
  {
    assert p[..i][1..] == p[1..][..i - 1];
  }

  lemma BlockedDeeper(o: Node, p: Path)
    requires |p| > 1
    ensures Lookup(o, p[0]).Some? && Lookup(o, p[0]).value.Object? ==>
      (Blocked(o, p) <==> Blocked(Lookup(o, p[0]).value.members, p[1..]))
    ensures Lookup(o, p[0]).Some? && !Lookup(o, p[0]).value.Object? ==> Blocked(o, p)
    ensures Lookup(o, p[0]).None? ==> !Blocked(o, p)
  {
    var l := Lookup(o, p[0]);
    assert p[..1] == [p[0]];
    forall i | 1 < i < |p| ensures Get(o, p[..i]) ==
      match l { case Some(Object(sub)) => Get(sub, p[1..][..i - 1]) case _ => None }
    {
      GetDeeper(o, p, i);
    }
    if l.Some? && !l.value.Object? {
      assert Get(o, p[..1]) == l;
    } else if l.Some? {
      var sub := l.value.members;
      if Blocked(sub, p[1..]) {
        var i :| 1 <= i < |p[1..]| && Get(sub, p[1..][..i]).Some? && !Get(sub, p[1..][..i]).value.Object?;
        assert Get(o, p[..i + 1]) == Get(sub, p[1..][..i]);
      }
      if Blocked(o, p) {
        var i :| 1 <= i < |p| && Get(o, p[..i]).Some? && !Get(o, p[..i]).value.Object?;
        assert i > 1;
        assert Get(sub, p[1..][..i - 1]) == Get(o, p[..i]);
      }
    }
  }

  lemma EmptyNotBlocked(p: Path)
    ensures !Blocked([], p)
  {
    if |p| > 1 { BlockedDeeper([], p); }
  }

  /** A set fails exactly when something that is no object is in the way. */
  lemma {:induction false} SetFailsExactly(o: Node, p: Path, v: Value)
    ensures Set(o, p, v).None? <==> Blocked(o, p)
    decreases |p|
  {
    if |p| > 1 {
      BlockedDeeper(o, p);
      EmptyNotBlocked(p[1..]);
      SetFailsExactly([], p[1..], v);
      match Lookup<Value>(o, p[0])
      case Some(Object(sub)) => SetFailsExactly(sub, p[1..], v);
      case _ =>
    }
  }

  ghost predicate Tidy(o: Node) { WellFormed(Object(o)) }

  lemma LookupTidy(o: Node, k: CString)
    requires Tidy(o) && Lookup(o, k).Some?
    ensures WellFormed(Lookup(o, k).value)
  {
  }

  lemma PutTidy(o: Node, k: CString, v: Value)
    requires Tidy(o) && WellFormed(v)
    ensures Tidy(Put(o, k, v))
  {
  }

  /** A set keeps keys distinct everywhere. */
  lemma {:induction false} SetTidy(o: Node, p: Path, v: Value)
    requires Tidy(o) && WellFormed(v) && Set(o, p, v).Some?
    ensures Tidy(Set(o, p, v).value)
    decreases |p|
  {
    if |p| == 1 {
      PutTidy(o, p[0], v);
    } else {
      var sub := if Lookup(o, p[0]).Some? then Lookup(o, p[0]).value.members else [];
      if Lookup(o, p[0]).Some? { LookupTidy(o, p[0]); }
      SetTidy(sub, p[1..], v);
      PutTidy(o, p[0], Object(Set(sub, p[1..], v).value));
    }
  }

  /** What was set is what is read. */
  lemma {:induction false} GetAfterSet(o: Node, p: Path, v: Value)
    requires Tidy(o) && Set(o, p, v).Some?
    ensures Get(Set(o, p, v).value, p) == Some(v)
    decreases |p|
  {
    if |p| == 1 {
      LookupPut(o, p[0], v, p[0]);
    } else {
      var sub := if Lookup(o, p[0]).Some? then Lookup(o, p[0]).value.members else [];
      if Lookup(o, p[0]).Some? { LookupTidy(o, p[0]); }
      GetAfterSet(sub, p[1..], v);
      LookupPut(o, p[0], Object(Set(sub, p[1..], v).value), p[0]);
    }
  }

  /** Neither path leads through the other. */
  predicate Apart(p: Path, q: Path) {
    !(p <= q) && !(q <= p)
  }

  lemma ApartDeeper(p: Path, q: Path)
    requires Apart(p, q) && p[0] == q[0]
    ensures |p| > 1 && |q| > 1 && Apart(p[1..], q[1..])
  {
    assert p == [p[0]] + p[1..] && q == [q[0]] + q[1..];
  }

  /** In an empty object there is nothing to read. */
  lemma GetEmpty(q: Path)
    ensures Get([], q) == None
  {
  }

  /** A set touches one key of the object. */
  lemma SetTouchesOneKey(o: Node, p: Path, v: Value, k: CString)
    requires Tidy(o) && Set(o, p, v).Some? && k != p[0]
    ensures Lookup(Set(o, p, v).value, k) == Lookup(o, k)
  {
    var sub := if Lookup(o, p[0]).Some? && Lookup(o, p[0]).value.Object? then Lookup(o, p[0]).value.members else [];
    LookupPut(o, p[0], if |p| == 1 then v else Object(Set(sub, p[1..], v).value), k);
  }

  /** Every path apart from the one that was set reads as before. */
  lemma {:induction false} SetFrames(o: Node, p: Path, v: Value, q: Path)
    requires Tidy(o) && Set(o, p, v).Some? && Apart(p, q)
    ensures Get(Set(o, p, v).value, q) == Get(o, q)
    decreases |p|
  {
    if p[0] != q[0] {
      SetTouchesOneKey(o, p, v, q[0]);
    } else {
      ApartDeeper(p, q);
      var sub := if Lookup(o, p[0]).Some? then Lookup(o, p[0]).value.members else [];
      if Lookup(o, p[0]).Some? { LookupTidy(o, p[0]); }
      SetFrames(sub, p[1..], v, q[1..]);
      GetEmpty(q[1..]);
      GetThrough(o, p[0], Set(sub, p[1..], v).value, q);
    }
  }

  /** Reading a longer path through the key that a new sub-object was put at. */
  lemma GetThrough(o: Node, k: CString, sub: Node, q: Path)
    requires Tidy(o) && |q| > 1 && q[0] == k
    ensures Get(Put(o, k, Object(sub)), q) == Get(sub, q[1..])
  {
    LookupPut(o, k, Object(sub), k);
  }

  /** A removal succeeds exactly when there is a value to remove. */
  lemma {:induction false} UnsetSucceedsExactly(o: Node, p: Path)
    ensures Unset(o, p).Some? <==> Get(o, p).Some?
    decreases |p|
  {
    if |p| > 1 {
      match Lookup<Value>(o, p[0])
      case Some(Object(sub)) => UnsetSucceedsExactly(sub, p[1..]);
      case _ =>
    }
  }

  lemma RemoveTidy(o: Node, k: CString)
    requires Tidy(o) && HasKey(o, k)
    ensures Tidy(Remove(o, k).value)
  {
    var r, x := Remove(o, k).value, IndexOf(o, k).value;
    assert forall i :: 0 <= i < |r| ==> r[i] == if i == x then o[|o| - 1] else o[i];
  }

  /** After a removal the path is absent, and keys are still distinct everywhere. */
  lemma {:induction false} GetAfterUnset(o: Node, p: Path)
    requires Tidy(o) && Unset(o, p).Some?
    ensures Get(Unset(o, p).value, p) == None && Tidy(Unset(o, p).value)
    decreases |p|
  {
    if |p| == 1 {
      LookupRemove(o, p[0], p[0]);
      RemoveTidy(o, p[0]);
    } else {
      LookupTidy(o, p[0]);
      var sub := Lookup(o, p[0]).value.members;
      GetAfterUnset(sub, p[1..]);
      var v := Object(Unset(sub, p[1..]).value);
      LookupPut(o, p[0], v, p[0]);
      PutTidy(o, p[0], v);
    }
  }

  /** Every path apart from the one that was removed reads as before. */
  lemma {:induction false} UnsetFrames(o: Node, p: Path, q: Path)
    requires Tidy(o) && Unset(o, p).Some? && Apart(p, q)
    ensures Get(Unset(o, p).value, q) == Get(o, q)
    decreases |p|
  {
    if |p| == 1 {
      LookupRemove(o, p[0], q[0]);
    } else {
      LookupTidy(o, p[0]);
      var sub := Lookup(o, p[0]).value.members;
      LookupPut(o, p[0], Object(Unset(sub, p[1..]).value), q[0]);
      if p[0] == q[0] {
        ApartDeeper(p, q);
        UnsetFrames(sub, p[1..], q[1..]);
      }
    }
  }

  // ---- Laws of the operations on names ---------------------------------------------------------

  lemma DotSetLaws(o: Node, name: CString, v: Value, other: CString)
    requires Tidy(o)
    ensures DotSet(o, name, v).None? <==> Blocked(o, Split(name))
    ensures DotSet(o, name, v).Some? ==>
      && DotGet(Some(DotSet(o, name, v).value), name) == Some(v)
      && (Apart(Split(name), Split(other)) ==> DotGet(Some(DotSet(o, name, v).value), other) == DotGet(Some(o), other))
      && (WellFormed(v) ==> Tidy(DotSet(o, name, v).value))
  {
    var p, q := Split(name), Split(other);
    NamesArePaths(o, name, v);
    NamesArePaths(o, other, v);
    SetFailsExactly(o, p, v);
    if Set(o, p, v).Some? {
      var o' := Set(o, p, v).value;
      NamesArePaths(o', name, v);
      NamesArePaths(o', other, v);
      GetAfterSet(o, p, v);
      if Apart(p, q) { SetFrames(o, p, v, q); }
      if WellFormed(v) { SetTidy(o, p, v); }
    }
  }

  lemma DotRemoveLaws(o: Node, name: CString, other: CString)
    requires Tidy(o)
    ensures DotRemove(o, name).Some? <==> DotGet(Some(o), name).Some?
    ensures DotRemove(o, name).Some? ==>
      && DotGet(Some(DotRemove(o, name).value), name) == None
      && (Apart(Split(name), Split(other)) ==> DotGet(Some(DotRemove(o, name).value), other) == DotGet(Some(o), other))
      && Tidy(DotRemove(o, name).value)
  {
    var p, q := Split(name), Split(other);
    NamesArePaths(o, name, Null);
    NamesArePaths(o, other, Null);
    UnsetSucceedsExactly(o, p);
    if Unset(o, p).Some? {
      var o' := Unset(o, p).value;
      NamesArePaths(o', name, Null);
      NamesArePaths(o', other, Null);
      GetAfterUnset(o, p);
      if Apart(p, q) { UnsetFrames(o, p, q); }
    }
  }
}
