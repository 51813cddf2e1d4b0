/** What the headers of a TOML document do to its tables: following a path, creating and promoting. */
module TomlHeaders {
  import opened Bytes
  import opened TomlKeys
  import opened TomlStore

  const MAX_PATH: nat := 10

  // ---- The table or the array of a key -------------------------------------------------------------

  /** A new explicit table, or one that so far only existed because a longer path led through it. */
  function KeyTable(s: Store, i: nat, key: Key): Option<(Store, nat)> {
    match Find(s, i, key)
    case Absent => Some((AddTable(s, i, key, false), |s.tabs|))
    case AtTable(j) =>
      var n := T(s, i).tab[j];
      if T(s, n).implicit then Some((Promote(s, n), n)) else None
    case _ => None
  }

  /** A new array, or with `skipIfExist` the one that is there. */
  function KeyArray(s: Store, i: nat, key: Key, skipIfExist: bool): Option<(Store, nat)> {
    match Find(s, i, key)
    case Absent => Some((AddArray(s, i, key), |s.arrs|))
    case AtArray(j) => if skipIfExist then Some((s, T(s, i).arr[j])) else None
    case _ => None
  }

  lemma KeyTableKeeps(s: Store, i: nat, key: Key, vt: seq<byte> -> nat)
    requires Ok(s, vt) && i < |s.tabs| && KeyTable(s, i, key).Some?
    ensures var (s', n) := KeyTable(s, i, key).value;
      && Ok(s', vt) && Extends(s, s') && n < |s'.tabs| && T(s', n).level == T(s, i).level + 1
      && !T(s', n).implicit && s'.explicit == s.explicit + [n] && n !in s.explicit && s'.cur == s.cur
      && Next(s', i, key) == Reaches(n)
      && |s'.arrs| == |s.arrs| && (forall b :: 0 <= b < |s.arrs| ==> A(s', b) == A(s, b))
      && (forall j :: 0 <= j < |s.tabs| ==> T(s', j).kval == T(s, j).kval)
  {
    assert TabOk(s, i);
    var (s', n) := KeyTable(s, i, key).value;
    match Find(s, i, key)
    case Absent =>
      AddTableKeeps(s, i, key, false, vt);
      NewTableFound(s, i, key, false, vt);
    case AtTable(j) =>
      PromoteKeeps(s, n, vt);
      assert TabOk(s', i);
      FoundAgain(s, s', i, key);
  }

  lemma KeyArrayKeeps(s: Store, i: nat, key: Key, skipIfExist: bool, vt: seq<byte> -> nat)
    requires Ok(s, vt) && i < |s.tabs| && KeyArray(s, i, key, skipIfExist).Some?
    ensures var (s', b) := KeyArray(s, i, key, skipIfExist).value;
      && Ok(s', vt) && Extends(s, s') && Only(s, s', i, -1)
      && b < |s'.arrs| && A(s', b).level == T(s, i).level + 1
      && s'.explicit == s.explicit && s'.cur == s.cur && |s'.tabs| == |s.tabs|
      && Find(s', i, key).AtArray? && T(s', i).arr[Find(s', i, key).i] == b
      && (forall j :: 0 <= j < |s.tabs| ==> T(s', j).kval == T(s, j).kval && T(s', j).tab == T(s, j).tab)
  {
    assert TabOk(s, i);
    if Find(s, i, key).Absent? {
      var s' := KeyArray(s, i, key, skipIfExist).value.0;
      AddArrayKeeps(s, i, key, vt);
      assert TabOk(s', i);
      KeyLists(s', i).FoundThere();
    }
  }

  // ---- Following a path ------------------------------------------------------------------------------

  /** Where a path leads: into something that is no table, to a table not made yet, or to a table. */
  datatype Outcome = Blocked | Missing | Reaches(n: nat)

  /** One segment leads to a sub-table, or to the last table of an array of tables. */
  function Next(s: Store, i: nat, key: Key): Outcome {
    match Find(s, i, key)
    case Absent => Missing
    case AtValue(_) => Blocked
    case AtTable(j) => Reaches(T(s, i).tab[j])
    case AtArray(j) =>
      var a := A(s, T(s, i).arr[j]);
      if a.kind == OfTables && |a.tabs| > 0 then Reaches(a.tabs[|a.tabs| - 1]) else Blocked
  }

  function Reach(s: Store, i: nat, path: seq<Key>): Outcome
    decreases |path|
  {
    if path == [] then Reaches(i)
    else
      match Next(s, i, path[0])
      case Reaches(n) => Reach(s, n, path[1..])
      case other => other
  }

  /** The walk that creates what is missing; such tables are implicit. */
  function Walk(s: Store, i: nat, path: seq<Key>): Option<(Store, nat)>
    decreases |path|
  {
    if path == [] then Some((s, i))
    else
      match Next(s, i, path[0])
      case Blocked => None
      case Reaches(n) => Walk(s, n, path[1..])
      case Missing => Walk(AddTable(s, i, path[0], true), |s.tabs|, path[1..])
  }

  lemma NextInside(s: Store, i: nat, key: Key, vt: seq<byte> -> nat)
    requires Ok(s, vt) && i < |s.tabs| && Next(s, i, key).Reaches?
    ensures Next(s, i, key).n < |s.tabs| && T(s, Next(s, i, key).n).level > T(s, i).level
  {
    assert TabOk(s, i);
    if Find(s, i, key).AtArray? {
      assert ArrOk(s, T(s, i).arr[Find(s, i, key).i], vt);
    }
  }

  lemma {:induction false} ReachAppend(s: Store, i: nat, path: seq<Key>, more: seq<Key>)
    ensures Reach(s, i, path + more) ==
      match Reach(s, i, path) { case Reaches(n) => Reach(s, n, more) case other => other }
    decreases |path|
  {
    if path == [] {
      assert path + more == more;
    } else {
      assert (path + more)[1..] == path[1..] + more;
      if Next(s, i, path[0]).Reaches? {
        ReachAppend(s, Next(s, i, path[0]).n, path[1..], more);
      }
    }
  }

  /** The arrays whose last table a path goes through. */
  function Crossed(s: Store, i: nat, path: seq<Key>): set<nat>
    decreases |path|
  {
    if path == [] || !Next(s, i, path[0]).Reaches? then {}
    else
      var f := Find(s, i, path[0]);
      (if f.AtArray? then {T(s, i).arr[f.i]} else {}) + Crossed(s, Next(s, i, path[0]).n, path[1..])
  }

  lemma NextKept(s: Store, s': Store, i: nat, key: Key, vt: seq<byte> -> nat)
    requires Ok(s, vt) && Ok(s', vt) && Extends(s, s') && i < |s.tabs| && Next(s, i, key).Reaches?
    requires var f := Find(s, i, key); f.AtArray? ==> A(s', T(s, i).arr[f.i]).tabs == A(s, T(s, i).arr[f.i]).tabs
    ensures Next(s', i, key) == Next(s, i, key) && Find(s', i, key) == Find(s, i, key)
  {
    assert TabOk(s, i) && TabOk(s', i) && TabGrows(T(s, i), T(s', i));
    FoundAgain(s, s', i, key);
    if Find(s, i, key).AtArray? {
      var b := T(s, i).arr[Find(s, i, key).i];
      assert ArrGrows(A(s, b), A(s', b));
    }
  }

  /** A path that led to a table still does, unless it crosses an array that got another last table. */
  lemma {:induction false} ReachKept(s: Store, s': Store, i: nat, path: seq<Key>, vt: seq<byte> -> nat)
    requires Ok(s, vt) && Ok(s', vt) && Extends(s, s') && i < |s.tabs| && Reach(s, i, path).Reaches?
    requires forall b :: b in Crossed(s, i, path) ==> A(s', b).tabs == A(s, b).tabs
    ensures Reach(s', i, path) == Reach(s, i, path) && Crossed(s', i, path) == Crossed(s, i, path)
    decreases |path|
  {
    if path != [] {
      assert var f := Find(s, i, path[0]); f.AtArray? ==> T(s, i).arr[f.i] in Crossed(s, i, path);
      NextKept(s, s', i, path[0], vt);
      NextInside(s, i, path[0], vt);
      assert TabOk(s, i) && TabGrows(T(s, i), T(s', i));
      ReachKept(s, s', Next(s, i, path[0]).n, path[1..], vt);
    }
  }

  /** What a walk that ends at table `n` of `s'` has done to `s`. */
  ghost predicate Walked(s: Store, s': Store, n: nat, vt: seq<byte> -> nat) {
    && Ok(s', vt) && Extends(s, s') && n < |s'.tabs|
    && s'.arrs == s.arrs && s'.explicit == s.explicit && s'.cur == s.cur
    && (forall j {:trigger T(s', j)} :: 0 <= j < |s.tabs| ==>
          T(s', j).implicit == T(s, j).implicit && T(s', j).kval == T(s, j).kval && T(s', j).arr == T(s, j).arr)
  }

  /** The walk fails exactly on a blocked path, and otherwise makes the path lead to its table. */
  lemma {:induction false} WalkKeeps(s: Store, i: nat, path: seq<Key>, vt: seq<byte> -> nat)
    requires Ok(s, vt) && i < |s.tabs|
    ensures Walk(s, i, path).Some? <==> !Reach(s, i, path).Blocked?
    ensures Walk(s, i, path).Some? ==>
      var (s', n) := Walk(s, i, path).value;
      && Walked(s, s', n, vt) && Reach(s', i, path) == Reaches(n)
      && (Reach(s, i, path).Reaches? ==> s' == s && Reach(s, i, path) == Reaches(n))
      && (Reach(s, i, path).Missing? ==> |s.tabs| <= n && Empty(T(s', n)) && T(s', n).implicit)
    decreases |path|, 0
  {
    if path != [] {
      var key, rest := path[0], path[1..];
      match Next(s, i, key)
      case Blocked =>
      case Reaches(n) =>
        NextInside(s, i, key, vt);
        WalkKeeps(s, n, rest, vt);
        if Walk(s, n, rest).Some? {
          NextKept(s, Walk(s, n, rest).value.0, i, key, vt);
        }
      case Missing =>
        WalkMissing(s, i, key, rest, vt);
    }
  }

  /** One missing table: the path leads to it, and nothing else is new. */
  lemma StepMissing(s: Store, i: nat, key: Key, vt: seq<byte> -> nat)
    requires Ok(s, vt) && i < |s.tabs| && Next(s, i, key).Missing?
    ensures var s', n := AddTable(s, i, key, true), |s.tabs|;
      && Walked(s, s', n, vt) && Next(s', i, key) == Reaches(n)
      && T(s', n) == NewTab(key, T(s, i).level + 1, i, true)
  {
    AddTableKeeps(s, i, key, true, vt);
    NewTableFound(s, i, key, true, vt);
  }

  lemma NewTableFound(s: Store, i: nat, key: Key, implicit: bool, vt: seq<byte> -> nat)
    requires Ok(s, vt) && i < |s.tabs| && key !in Keys(s, i)
    ensures Next(AddTable(s, i, key, implicit), i, key) == Reaches(|s.tabs|)
  {
    var s' := AddTable(s, i, key, implicit);
    AddTableKeeps(s, i, key, implicit, vt);
    assert TabOk(s', i);
    KeyLists(s', i).FoundThere();
    assert KeyLists(s', i).ts[|T(s, i).tab|] == key;
  }

  lemma WalkedTwice(s: Store, s1: Store, m: nat, s2: Store, n: nat, vt: seq<byte> -> nat)
    requires Walked(s, s1, m, vt) && Walked(s1, s2, n, vt)
    ensures Walked(s, s2, n, vt)
  {
    ExtendsTwice(s, s1, s2);
    forall j | 0 <= j < |s.tabs|
      ensures T(s2, j).implicit == T(s, j).implicit && T(s2, j).kval == T(s, j).kval && T(s2, j).arr == T(s, j).arr
    {
      assert T(s1, j).implicit == T(s, j).implicit && T(s1, j).kval == T(s, j).kval && T(s1, j).arr == T(s, j).arr;
    }
  }

  lemma WalkMissing(s: Store, i: nat, key: Key, rest: seq<Key>, vt: seq<byte> -> nat)
    requires Ok(s, vt) && i < |s.tabs| && Next(s, i, key).Missing?
    ensures Walk(AddTable(s, i, key, true), |s.tabs|, rest).Some?
    ensures
      var (s', n) := Walk(AddTable(s, i, key, true), |s.tabs|, rest).value;
      && Walked(s, s', n, vt) && Next(s', i, key) == Reaches(|s.tabs|) && Reach(s', |s.tabs|, rest) == Reaches(n)
      && |s.tabs| <= n && Empty(T(s', n)) && T(s', n).implicit
    decreases |rest|, 1
  {
    var s1, m := AddTable(s, i, key, true), |s.tabs|;
    StepMissing(s, i, key, vt);
    NewIsEmpty(s1, m, rest);
    WalkKeeps(s1, m, rest, vt);
    var (s', n) := Walk(s1, m, rest).value;
    WalkedTwice(s, s1, m, s', n, vt);
    NextKept(s1, s', i, key, vt);
  }

  /** Nothing blocks a path from an empty table. */
  lemma NewIsEmpty(s: Store, m: nat, path: seq<Key>)
    requires Empty(T(s, m))
    ensures Reach(s, m, path) == if path == [] then Reaches(m) else Missing
  {
    assert Keys(s, m) == [];
  }

  // ---- Headers ---------------------------------------------------------------------------------------

  /** `[x.y.z]` or `[[x.y.z]]`: the table that it names becomes current. */
  function Select(s: Store, path: seq<Key>, double: bool): Option<Store> {
    if path == [] || |path| > MAX_PATH then None
    else SelectIn(s, path[..|path| - 1], path[|path| - 1], double)
  }

  function SelectIn(s: Store, init: seq<Key>, key: Key, double: bool): Option<Store> {
    match Walk(s, 0, init)
    case None => None
    case Some((s1, p)) => SelectLast(s1, p, key, double)
  }

  /** The last segment: a table, or a new last table of an array. */
  function SelectLast(s: Store, p: nat, key: Key, double: bool): Option<Store> {
    if double then
      match KeyArray(s, p, key, true)
      case None => None
      case Some((s1, b)) =>
        if A(s1, b).kind !in {Unknown, OfTables} then None
        else Some(PushTable(s1, b, ANONYMOUS).(cur := |s1.tabs|))
    else
      match KeyTable(s, p, key)
      case None => None
      case Some((s1, n)) => Some(s1.(cur := n))
  }

  /** Whether the last segment of a header may be made in table `p`. */
  predicate Selectable(s: Store, p: nat, key: Key, double: bool) {
    match Find(s, p, key)
    case Absent => true
    case AtTable(j) => !double && T(s, T(s, p).tab[j]).implicit
    case AtArray(j) => double && A(s, T(s, p).arr[j]).kind in {Unknown, OfTables}
    case AtValue(_) => false
  }

  /** Whether a header is accepted, said of the tables as they are before it. */
  predicate CanSelect(s: Store, path: seq<Key>, double: bool) {
    0 < |path| <= 10 && CanSelectIn(s, path[..|path| - 1], path[|path| - 1], double)
  }

  predicate CanSelectIn(s: Store, init: seq<Key>, key: Key, double: bool) {
    match Reach(s, 0, init)
    case Blocked => false
    case Missing => true
    case Reaches(p) => Selectable(s, p, key, double)
  }

  /** The array that a double-bracket header gives another last table, if there is one already. */
  predicate Appended(s: Store, path: seq<Key>, double: bool, b: nat) {
    double && path != [] && AppendedIn(s, path[..|path| - 1], path[|path| - 1], b)
  }

  predicate AppendedIn(s: Store, init: seq<Key>, key: Key, b: nat) {
    Reach(s, 0, init).Reaches? && AppendedAt(s, Reach(s, 0, init).n, key, b)
  }

  predicate AppendedAt(s: Store, p: nat, key: Key, b: nat) {
    Find(s, p, key).AtArray? && T(s, p).arr[Find(s, p, key).i] == b
  }

  /** What a header has done: one table became explicit and current, and nothing that was there is gone. */
  ghost predicate Selected(s: Store, s': Store, vt: seq<byte> -> nat) {
    && Ok(s', vt) && Extends(s, s') && s'.explicit == s.explicit + [s'.cur] && s'.cur !in s.explicit
    && (forall j {:trigger T(s', j)} :: 0 <= j < |s.tabs| ==> T(s', j).kval == T(s, j).kval)
  }

  lemma SetCurKeeps(s: Store, n: nat, vt: seq<byte> -> nat)
    requires Ok(s, vt) && n < |s.tabs|
    ensures var s' := s.(cur := n); Ok(s', vt) && Extends(s, s') && Only(s, s', -1, -1)
  {
    var s' := s.(cur := n);
    ExplicitSame(s, s');
    OkAfter(s, s', -1, -1, vt);
  }

  lemma SelectTableKeeps(s: Store, p: nat, key: Key, vt: seq<byte> -> nat)
    requires Ok(s, vt) && p < |s.tabs|
    ensures SelectLast(s, p, key, false).Some? <==> Selectable(s, p, key, false)
    ensures SelectLast(s, p, key, false).Some? ==>
      var s' := SelectLast(s, p, key, false).value;
      && Selected(s, s', vt) && Next(s', p, key) == Reaches(s'.cur)
      && (forall b {:trigger A(s', b)} :: 0 <= b < |s.arrs| ==> A(s', b) == A(s, b))
  {
    assert TabOk(s, p);
    if KeyTable(s, p, key).Some? {
      var (s1, n) := KeyTable(s, p, key).value;
      KeyTableKeeps(s, p, key, vt);
      SetCurKeeps(s1, n, vt);
      ExtendsTwice(s, s1, s1.(cur := n));
      SameFind(s1, s1.(cur := n), p);
    }
  }

  /** The current table does not matter to a lookup. */
  lemma SameFind(s: Store, s': Store, p: nat)
    requires s' == s.(cur := s'.cur)
    ensures forall key :: Find(s', p, key) == Find(s, p, key) && Next(s', p, key) == Next(s, p, key)
  {
    assert KeyLists(s', p).rs == KeyLists(s, p).rs && KeyLists(s', p).ts == KeyLists(s, p).ts;
  }

  lemma SelectElementKeeps(s: Store, p: nat, key: Key, vt: seq<byte> -> nat)
    requires Ok(s, vt) && p < |s.tabs|
    ensures SelectLast(s, p, key, true).Some? <==> Selectable(s, p, key, true)
    ensures SelectLast(s, p, key, true).Some? ==>
      var s' := SelectLast(s, p, key, true).value;
      && Selected(s, s', vt) && Next(s', p, key) == Reaches(s'.cur) && |s.tabs| <= s'.cur
      && (forall b {:trigger A(s', b)} :: 0 <= b < |s.arrs| && !AppendedAt(s, p, key, b) ==> A(s', b) == A(s, b))
  {
    assert TabOk(s, p);
    if KeyArray(s, p, key, true).Some? {
      var (s1, b) := KeyArray(s, p, key, true).value;
      KeyArrayKeeps(s, p, key, true, vt);
      if A(s1, b).kind in {Unknown, OfTables} {
        ElementPushed(s1, p, key, b, vt);
        ElementFrame(s, s1, p, key, b);
        ExtendsTwice(s, s1, PushTable(s1, b, ANONYMOUS).(cur := |s1.tabs|));
      }
    }
  }

  /** The new last table of the array of a key is where that key leads. */
  lemma ElementPushed(s: Store, p: nat, key: Key, b: nat, vt: seq<byte> -> nat)
    requires Ok(s, vt) && p < |s.tabs| && b < |s.arrs| && AppendedAt(s, p, key, b)
    requires A(s, b).kind in {Unknown, OfTables}
    ensures var s' := PushTable(s, b, ANONYMOUS).(cur := |s.tabs|);
      Selected(s, s', vt) && Next(s', p, key) == Reaches(|s.tabs|)
  {
    var s1, s' := PushTable(s, b, ANONYMOUS), PushTable(s, b, ANONYMOUS).(cur := |s.tabs|);
    PushTableKeeps(s, b, ANONYMOUS, vt);
    SetCurKeeps(s1, |s.tabs|, vt);
    ExtendsTwice(s, s1, s');
    assert TabOk(s, p) && TabOk(s', p) && T(s', p) == T(s, p);
    FoundAgain(s, s', p, key);
  }

  lemma ElementFrame(s: Store, s1: Store, p: nat, key: Key, b: nat)
    requires KeyArray(s, p, key, true) == Some((s1, b)) && p < |s.tabs|
    ensures var s' := PushTable(s1, b, ANONYMOUS).(cur := |s1.tabs|);
      && (forall c {:trigger A(s', c)} :: 0 <= c < |s.arrs| && !AppendedAt(s, p, key, c) ==> A(s', c) == A(s, c))
  {
  }

  /** A path crosses only arrays less deep than the table that it leads to. */
  lemma {:induction false} CrossedShallow(s: Store, i: nat, path: seq<Key>, vt: seq<byte> -> nat)
    requires Ok(s, vt) && i < |s.tabs| && Reach(s, i, path).Reaches?
    ensures Reach(s, i, path).n < |s.tabs| && T(s, i).level <= T(s, Reach(s, i, path).n).level
    ensures forall b :: b in Crossed(s, i, path) ==>
      b < |s.arrs| && A(s, b).level < T(s, Reach(s, i, path).n).level
    decreases |path|
  {
    if path != [] {
      var f := Find(s, i, path[0]);
      assert TabOk(s, i);
      if f.AtArray? {
        assert ArrOk(s, T(s, i).arr[f.i], vt);
      }
      NextInside(s, i, path[0], vt);
      CrossedShallow(s, Next(s, i, path[0]).n, path[1..], vt);
    }
  }

  /**
   * A header is accepted exactly when it may be, said of the tables before it.  Its path then leads
   * to the table that it made current and explicit; all values, lists and explicit tables are kept,
   * and only the array that a double-bracket header names has another last table.
   */
  lemma SelectKeeps(s: Store, path: seq<Key>, double: bool, vt: seq<byte> -> nat)
    requires Ok(s, vt)
    ensures Select(s, path, double).Some? <==> CanSelect(s, path, double)
    ensures Select(s, path, double).Some? ==>
      var s' := Select(s, path, double).value;
      && Selected(s, s', vt) && Reach(s', 0, path) == Reaches(s'.cur)
      && (forall b {:trigger A(s', b)} :: 0 <= b < |s.arrs| && !Appended(s, path, double, b) ==> A(s', b) == A(s, b))
  {
    if 0 < |path| <= MAX_PATH {
      var init, key := path[..|path| - 1], path[|path| - 1];
      SelectInKeeps(s, init, key, double, vt);
      assert path == init + [key];
    }
  }

  lemma SelectInKeeps(s: Store, init: seq<Key>, key: Key, double: bool, vt: seq<byte> -> nat)
    requires Ok(s, vt)
    ensures SelectIn(s, init, key, double).Some? <==> CanSelectIn(s, init, key, double)
    ensures SelectIn(s, init, key, double).Some? ==>
      var s' := SelectIn(s, init, key, double).value;
      && Selected(s, s', vt) && Reach(s', 0, init + [key]) == Reaches(s'.cur)
      && (forall b {:trigger A(s', b)} ::
            0 <= b < |s.arrs| && !(double && AppendedIn(s, init, key, b)) ==> A(s', b) == A(s, b))
  {
    WalkKeeps(s, 0, init, vt);
    if Walk(s, 0, init).Some? {
      var (s1, p) := Walk(s, 0, init).value;
      SelectAfterWalk(s, s1, p, init, key, double, vt);
    }
  }

  /** The rest of a header, when the walk has led to table `p` of `s1`. */
  lemma SelectAfterWalk(s: Store, s1: Store, p: nat, init: seq<Key>, key: Key, double: bool, vt: seq<byte> -> nat)
    requires Ok(s, vt) && Walked(s, s1, p, vt) && Reach(s1, 0, init) == Reaches(p)
    requires Reach(s, 0, init).Reaches? ==> s1 == s
    requires Reach(s, 0, init).Missing? ==> |s.tabs| <= p && Empty(T(s1, p))
    requires !Reach(s, 0, init).Blocked?
    ensures SelectLast(s1, p, key, double).Some? <==>
      Reach(s, 0, init).Missing? || Selectable(s, p, key, double)
    ensures SelectLast(s1, p, key, double).Some? ==>
      var s' := SelectLast(s1, p, key, double).value;
      && Selected(s, s', vt) && Reach(s', 0, init + [key]) == Reaches(s'.cur)
      && (forall b {:trigger A(s', b)} ::
            0 <= b < |s.arrs| && !(double && AppendedIn(s, init, key, b)) ==> A(s', b) == A(s, b))
  {
    if double {
      SelectElementKeeps(s1, p, key, vt);
    } else {
      SelectTableKeeps(s1, p, key, vt);
    }
    if Reach(s, 0, init).Missing? {
      assert Keys(s1, p) == [];
    }
    if SelectLast(s1, p, key, double).Some? {
      var s' := SelectLast(s1, p, key, double).value;
      SelectedAfter(s, s1, p, s', vt);
      PathAfterSelect(s1, s', p, init, key, vt);
    }
  }

  /** A path and one more segment, when only arrays deeper than its table have changed. */
  lemma PathAfterSelect(s: Store, s': Store, p: nat, init: seq<Key>, key: Key, vt: seq<byte> -> nat)
    requires Ok(s, vt) && Ok(s', vt) && Extends(s, s') && p < |s.tabs| && Reach(s, 0, init) == Reaches(p)
    requires forall b {:trigger A(s', b)} :: 0 <= b < |s.arrs| && !AppendedAt(s, p, key, b) ==> A(s', b) == A(s, b)
    ensures Reach(s', 0, init + [key]) == Next(s', p, key)
  {
    assert TabOk(s, p);
    CrossedShallow(s, 0, init, vt);
    ReachKept(s, s', 0, init, vt);
    ReachAppend(s', 0, init, [key]);
    assert [key][1..] == [];
  }

  lemma SelectedAfter(s: Store, s1: Store, p: nat, s': Store, vt: seq<byte> -> nat)
    requires Walked(s, s1, p, vt) && Selected(s1, s', vt)
    ensures Selected(s, s', vt)
  {
    ExtendsTwice(s, s1, s');
    forall j | 0 <= j < |s.tabs| ensures T(s', j).kval == T(s, j).kval {
      assert T(s1, j).kval == T(s, j).kval && T(s', j).kval == T(s1, j).kval;
    }
  }
}
