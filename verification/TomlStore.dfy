/**
 * A TOML document as a value: numbered tables and arrays that refer to each other by number.
 * A number that refers to nothing reads as an empty record, so that every function is total.
 */
module TomlStore {
  import opened Bytes
  import opened TomlKeys

  datatype Kind = Unknown | OfValues | OfArrays | OfTables

  /** The key of a table that a double-bracket header appends. */
  const ANONYMOUS: Key := [0x5F, 0x5F, 0x61, 0x6E, 0x6F, 0x6E, 0x5F, 0x5F]
  /** Stands for the missing key of the root and of the elements of inline arrays. */
  const NO_KEY: Key := []

  /** A table; `level` is the number of tables and arrays around it, `up` the table whose sub-table it is. */
  datatype TabRec = TabRec(
    key: Key, level: nat, up: nat, implicit: bool, kval: seq<KeyVal>, arr: seq<nat>, tab: seq<nat>)

  /** An array; its elements are in the list that its kind names. */
  datatype ArrRec = ArrRec(
    key: Key, level: nat, kind: Kind, typ: nat, vals: seq<seq<byte>>, arrs: seq<nat>, tabs: seq<nat>)

  /** `explicit` lists the tables that are explicit, in the order in which they became so. */
  datatype Store = Store(tabs: seq<TabRec>, arrs: seq<ArrRec>, explicit: seq<nat>, cur: nat)

  const INITIAL := Store([NewTab(NO_KEY, 0, 0, false)], [], [0], 0)

  function NewTab(key: Key, level: nat, up: nat, implicit: bool): TabRec {
    TabRec(key, level, up, implicit, [], [], [])
  }

  predicate Empty(r: TabRec) {
    r.kval == [] && r.arr == [] && r.tab == []
  }

  function NewArr(key: Key, level: nat): ArrRec {
    ArrRec(key, level, Unknown, 0, [], [], [])
  }

  function T(s: Store, i: nat): TabRec {
    if i < |s.tabs| then s.tabs[i] else NewTab(NO_KEY, 0, 0, false)
  }

  function A(s: Store, b: nat): ArrRec {
    if b < |s.arrs| then s.arrs[b] else NewArr(NO_KEY, 0)
  }

  function ArrKeys(s: Store, ids: seq<nat>): (ks: seq<Key>)
    ensures |ks| == |ids| && forall j :: 0 <= j < |ids| ==> ks[j] == A(s, ids[j]).key
  {
    seq(|ids|, j requires 0 <= j < |ids| => A(s, ids[j]).key)
  }

  function TabKeys(s: Store, ids: seq<nat>): (ks: seq<Key>)
    ensures |ks| == |ids| && forall j :: 0 <= j < |ids| ==> ks[j] == T(s, ids[j]).key
  {
    seq(|ids|, j requires 0 <= j < |ids| => T(s, ids[j]).key)
  }

  function KeyLists(s: Store, i: nat): Lists {
    Lists(ValueKeys(T(s, i).kval), ArrKeys(s, T(s, i).arr), TabKeys(s, T(s, i).tab))
  }

  function Keys(s: Store, i: nat): seq<Key> {
    KeyLists(s, i).All()
  }

  function Find(s: Store, i: nat, key: Key): Found {
    KeyLists(s, i).Find(key)
  }

  // ---- The invariant -----------------------------------------------------------------------------

  ghost predicate TabOk(s: Store, i: nat) {
    && Distinct(Keys(s, i)) && T(s, i).up < |s.tabs|
    && (forall j :: 0 <= j < |T(s, i).tab| ==>
          && T(s, i).tab[j] < |s.tabs| && T(s, T(s, i).tab[j]).level == T(s, i).level + 1
          && T(s, T(s, i).tab[j]).up == i)
    && (forall j :: 0 <= j < |T(s, i).arr| ==>
          T(s, i).arr[j] < |s.arrs| && A(s, T(s, i).arr[j]).level == T(s, i).level + 1)
  }

  /** Every element of an array has the array's kind, and every value its type. */
  ghost predicate ArrOk(s: Store, b: nat, vt: seq<byte> -> nat) {
    var a := A(s, b);
    && (forall j :: 0 <= j < |a.tabs| ==>
          a.tabs[j] < |s.tabs| && a.tabs[j] in s.explicit && T(s, a.tabs[j]).level == a.level + 1)
    && (forall j :: 0 <= j < |a.arrs| ==> a.arrs[j] < |s.arrs| && A(s, a.arrs[j]).level == a.level + 1)
    && (forall j :: 0 <= j < |a.vals| ==> vt(a.vals[j]) == a.typ)
    && (a.kind != OfTables ==> a.tabs == [])
    && (a.kind != OfArrays ==> a.arrs == [])
    && (a.kind != OfValues ==> a.vals == [])
  }

  ghost predicate ExplicitOk(s: Store) {
    && Distinct(s.explicit)
    && (forall i {:trigger i in s.explicit} :: i in s.explicit ==> i < |s.tabs|)
    && (forall i {:trigger T(s, i).implicit} :: 0 <= i < |s.tabs| ==> (T(s, i).implicit <==> i !in s.explicit))
  }

  ghost predicate Ok(s: Store, vt: seq<byte> -> nat) {
    && s.cur < |s.tabs|
    && (forall i {:trigger TabOk(s, i)} :: 0 <= i < |s.tabs| ==> TabOk(s, i))
    && (forall b {:trigger ArrOk(s, b, vt)} :: 0 <= b < |s.arrs| ==> ArrOk(s, b, vt))
    && ExplicitOk(s)
  }

  // ---- What a change may do ------------------------------------------------------------------------

  /** The lists of a table only grow, and an explicit table stays explicit. */
  ghost predicate TabGrows(r: TabRec, r': TabRec) {
    && r'.key == r.key && r'.level == r.level && r'.up == r.up && (r'.implicit ==> r.implicit)
    && r.kval <= r'.kval && r.arr <= r'.arr && r.tab <= r'.tab
  }

  ghost predicate ArrGrows(a: ArrRec, a': ArrRec) {
    && a'.key == a.key && a'.level == a.level && (a.kind != Unknown ==> a'.kind == a.kind)
    && a.vals <= a'.vals && a.arrs <= a'.arrs && a.tabs <= a'.tabs
  }

  ghost predicate Extends(s: Store, s': Store) {
    && |s.tabs| <= |s'.tabs| && |s.arrs| <= |s'.arrs| && s.explicit <= s'.explicit
    && (forall i {:trigger T(s', i)} {:trigger T(s, i)} :: 0 <= i < |s.tabs| ==> TabGrows(T(s, i), T(s', i)))
    && (forall b {:trigger A(s', b)} {:trigger A(s, b)} :: 0 <= b < |s.arrs| ==> ArrGrows(A(s, b), A(s', b)))
  }

  lemma ExtendsTwice(s: Store, s1: Store, s2: Store)
    requires Extends(s, s1) && Extends(s1, s2)
    ensures Extends(s, s2)
  {
    forall i | 0 <= i < |s.tabs| ensures TabGrows(T(s, i), T(s2, i)) {
      assert TabGrows(T(s, i), T(s1, i)) && TabGrows(T(s1, i), T(s2, i));
    }
    forall b | 0 <= b < |s.arrs| ensures ArrGrows(A(s, b), A(s2, b)) {
      assert ArrGrows(A(s, b), A(s1, b)) && ArrGrows(A(s1, b), A(s2, b));
    }
  }

  /** The keys of a table that were there are there, at the same places. */
  lemma KeysWithin(s: Store, s': Store, i: nat)
    requires Extends(s, s') && i < |s.tabs| && TabOk(s, i)
    ensures KeyLists(s, i).Within(KeyLists(s', i))
  {
    var r, r' := T(s, i), T(s', i);
    assert TabGrows(r, r');
    forall j | 0 <= j < |r.arr| ensures ArrKeys(s, r.arr)[j] == ArrKeys(s', r'.arr)[j] {
      assert r'.arr[j] == r.arr[j] && ArrGrows(A(s, r.arr[j]), A(s', r.arr[j]));
    }
    forall j | 0 <= j < |r.tab| ensures TabKeys(s, r.tab)[j] == TabKeys(s', r'.tab)[j] {
      assert r'.tab[j] == r.tab[j] && TabGrows(T(s, r.tab[j]), T(s', r.tab[j]));
    }
  }

  /** A key that was found is found at the same place. */
  lemma FoundAgain(s: Store, s': Store, i: nat, key: Key)
    requires Extends(s, s') && i < |s.tabs| && TabOk(s, i) && TabOk(s', i) && !Find(s, i, key).Absent?
    ensures Find(s', i, key) == Find(s, i, key)
  {
    KeysWithin(s, s', i);
    KeyLists(s, i).FoundAgain(KeyLists(s', i), key);
  }

  /** A table whose lists did not change is as good as before. */
  lemma TabStillOk(s: Store, s': Store, i: nat)
    requires Extends(s, s') && i < |s.tabs| && TabOk(s, i)
    requires T(s', i).kval == T(s, i).kval && T(s', i).arr == T(s, i).arr && T(s', i).tab == T(s, i).tab
    ensures TabOk(s', i) && KeyLists(s', i) == KeyLists(s, i)
  {
    KeysWithin(s, s', i);
    var r, l, l' := T(s, i), KeyLists(s, i), KeyLists(s', i);
    assert l'.vs == l.vs && l'.rs == l.rs && l'.ts == l.ts;
    assert TabGrows(r, T(s', i));
    assert forall j :: 0 <= j < |r.arr| ==> ArrGrows(A(s, r.arr[j]), A(s', r.arr[j]));
    assert forall j :: 0 <= j < |r.tab| ==> TabGrows(T(s, r.tab[j]), T(s', r.tab[j]));
  }

  lemma ArrStillOk(s: Store, s': Store, b: nat, vt: seq<byte> -> nat)
    requires Extends(s, s') && b < |s.arrs| && ArrOk(s, b, vt) && A(s', b) == A(s, b)
    ensures ArrOk(s', b, vt)
  {
    var a := A(s, b);
    assert forall j :: 0 <= j < |a.arrs| ==> ArrGrows(A(s, a.arrs[j]), A(s', a.arrs[j]));
    assert forall j :: 0 <= j < |a.tabs| ==> TabGrows(T(s, a.tabs[j]), T(s', a.tabs[j]));
  }

  /** Only table `i` and array `b` may have changed, apart from what is new. */
  ghost predicate Only(s: Store, s': Store, i: int, b: int) {
    && |s.tabs| <= |s'.tabs| && |s.arrs| <= |s'.arrs|
    && (forall j {:trigger T(s', j)} {:trigger T(s, j)} :: 0 <= j < |s.tabs| && j != i ==> T(s', j) == T(s, j))
    && (forall c {:trigger A(s', c)} {:trigger A(s, c)} :: 0 <= c < |s.arrs| && c != b ==> A(s', c) == A(s, c))
  }

  lemma OnlyTwice(s: Store, s1: Store, s2: Store, i: int, b: int)
    requires Only(s, s1, i, b) && Only(s1, s2, i, b)
    ensures Only(s, s2, i, b)
  {
    assert forall j :: 0 <= j < |s.tabs| && j != i ==> T(s1, j) == T(s, j) && T(s2, j) == T(s1, j);
    assert forall c :: 0 <= c < |s.arrs| && c != b ==> A(s1, c) == A(s, c) && A(s2, c) == A(s1, c);
  }

  /** The invariant after a change to one table and one array, if these and the new ones are all right. */
  lemma OkAfter(s: Store, s': Store, i: int, b: int, vt: seq<byte> -> nat)
    requires Ok(s, vt) && Extends(s, s') && Only(s, s', i, b) && s'.cur < |s'.tabs| && ExplicitOk(s')
    requires 0 <= i < |s.tabs| ==> TabOk(s', i)
    requires 0 <= b < |s.arrs| ==> ArrOk(s', b, vt)
    requires forall j {:trigger TabOk(s', j)} :: |s.tabs| <= j < |s'.tabs| ==> TabOk(s', j)
    requires forall c {:trigger ArrOk(s', c, vt)} :: |s.arrs| <= c < |s'.arrs| ==> ArrOk(s', c, vt)
    ensures Ok(s', vt)
  {
    forall j | 0 <= j < |s'.tabs| ensures TabOk(s', j) {
      if j < |s.tabs| && j != i {
        assert TabOk(s, j) && T(s', j) == T(s, j);
        TabStillOk(s, s', j);
      }
    }
    forall c | 0 <= c < |s'.arrs| ensures ArrOk(s', c, vt) {
      if c < |s.arrs| && c != b {
        assert ArrOk(s, c, vt) && A(s', c) == A(s, c);
        ArrStillOk(s, s', c, vt);
      }
    }
  }

  // ---- The changes ---------------------------------------------------------------------------------

  function SetTab(s: Store, i: nat, r: TabRec): Store {
    if i < |s.tabs| then s.(tabs := s.tabs[i := r]) else s
  }

  function SetArr(s: Store, b: nat, a: ArrRec): Store {
    if b < |s.arrs| then s.(arrs := s.arrs[b := a]) else s
  }

  /** A new table at the end of the document, not yet part of another one. */
  function WithTab(s: Store, key: Key, level: nat, up: nat, implicit: bool): Store {
    s.(tabs := s.tabs + [NewTab(key, level, up, implicit)],
       explicit := if implicit then s.explicit else s.explicit + [|s.tabs|])
  }

  function WithArr(s: Store, key: Key, level: nat): Store {
    s.(arrs := s.arrs + [NewArr(key, level)])
  }

  function AddValue(s: Store, i: nat, kv: KeyVal): Store {
    SetTab(s, i, T(s, i).(kval := T(s, i).kval + [kv]))
  }

  /** The new table has the number `|s.tabs|`. */
  function AddTable(s: Store, i: nat, key: Key, implicit: bool): Store {
    SetTab(WithTab(s, key, T(s, i).level + 1, i, implicit), i, T(s, i).(tab := T(s, i).tab + [|s.tabs|]))
  }

  /** The new array has the number `|s.arrs|`. */
  function AddArray(s: Store, i: nat, key: Key): Store {
    SetTab(WithArr(s, key, T(s, i).level + 1), i, T(s, i).(arr := T(s, i).arr + [|s.arrs|]))
  }

  function Promote(s: Store, i: nat): Store {
    SetTab(s, i, T(s, i).(implicit := false)).(explicit := s.explicit + [i])
  }

  function PushValue(s: Store, b: nat, text: seq<byte>, vt: seq<byte> -> nat): Store {
    SetArr(s, b, A(s, b).(kind := OfValues, typ := vt(text), vals := A(s, b).vals + [text]))
  }

  function PushArray(s: Store, b: nat): Store {
    SetArr(WithArr(s, NO_KEY, A(s, b).level + 1), b, A(s, b).(kind := OfArrays, arrs := A(s, b).arrs + [|s.arrs|]))
  }

  function PushTable(s: Store, b: nat, key: Key): Store {
    SetArr(WithTab(s, key, A(s, b).level + 1, |s.tabs|, false), b,
           A(s, b).(kind := OfTables, tabs := A(s, b).tabs + [|s.tabs|]))
  }

  lemma WithTabExplicit(s: Store, key: Key, level: nat, up: nat, implicit: bool)
    requires ExplicitOk(s)
    ensures ExplicitOk(WithTab(s, key, level, up, implicit))
  {
    var s', n := WithTab(s, key, level, up, implicit), |s.tabs|;
    assert n !in s.explicit;
    forall i | 0 <= i < |s'.tabs| ensures T(s', i).implicit <==> i !in s'.explicit {
      assert i < n ==> T(s', i) == T(s, i);
    }
  }

  lemma ExplicitSame(s: Store, s': Store)
    requires ExplicitOk(s) && |s'.tabs| == |s.tabs| && s'.explicit == s.explicit
    requires forall i {:trigger T(s', i)} :: 0 <= i < |s.tabs| ==> T(s', i).implicit == T(s, i).implicit
    ensures ExplicitOk(s')
  {
  }

  lemma AddValueKeeps(s: Store, i: nat, kv: KeyVal, vt: seq<byte> -> nat)
    requires Ok(s, vt) && i < |s.tabs| && kv.key !in Keys(s, i)
    ensures var s' := AddValue(s, i, kv); Ok(s', vt) && Extends(s, s') && Only(s, s', i, -1)
    ensures KeyLists(AddValue(s, i, kv), i) == KeyLists(s, i).(vs := KeyLists(s, i).vs + [kv.key])
  {
    var s', l := AddValue(s, i, kv), KeyLists(s, i);
    assert TabOk(s, i);
    assert KeyLists(s', i).rs == l.rs && KeyLists(s', i).ts == l.ts && KeyLists(s', i).vs == l.vs + [kv.key];
    l.MoreValues(kv.key);
    OkAfter(s, s', i, -1, vt);
  }

  lemma WithTabKeeps(s: Store, key: Key, level: nat, up: nat, implicit: bool, vt: seq<byte> -> nat)
    requires Ok(s, vt) && up <= |s.tabs|
    ensures var s' := WithTab(s, key, level, up, implicit); Ok(s', vt) && Extends(s, s') && Only(s, s', -1, -1)
    ensures forall i :: 0 <= i < |s.tabs| ==> KeyLists(WithTab(s, key, level, up, implicit), i) == KeyLists(s, i)
  {
    var s' := WithTab(s, key, level, up, implicit);
    WithTabExplicit(s, key, level, up, implicit);
    assert TabOk(s', |s.tabs|);
    OkAfter(s, s', -1, -1, vt);
    forall i | 0 <= i < |s.tabs| ensures KeyLists(s', i) == KeyLists(s, i) {
      assert TabOk(s, i) && T(s', i) == T(s, i);
      TabStillOk(s, s', i);
    }
  }

  /** Table `n` becomes a sub-table of table `i`. */
  lemma AttachTableKeeps(s: Store, i: nat, n: nat, vt: seq<byte> -> nat)
    requires Ok(s, vt) && i < |s.tabs| && n < |s.tabs| && T(s, n).level == T(s, i).level + 1
    requires T(s, n).up == i && T(s, n).key !in Keys(s, i)
    ensures var s' := SetTab(s, i, T(s, i).(tab := T(s, i).tab + [n]));
      && Ok(s', vt) && Extends(s, s') && Only(s, s', i, -1)
      && KeyLists(s', i) == KeyLists(s, i).(ts := KeyLists(s, i).ts + [T(s, n).key])
  {
    var s', l := SetTab(s, i, T(s, i).(tab := T(s, i).tab + [n])), KeyLists(s, i);
    assert TabOk(s, i);
    assert KeyLists(s', i).rs == l.rs && KeyLists(s', i).vs == l.vs && KeyLists(s', i).ts == l.ts + [T(s, n).key];
    l.MoreTables(T(s, n).key);
    ExplicitSame(s, s');
    OkAfter(s, s', i, -1, vt);
  }

  lemma AddTableKeeps(s: Store, i: nat, key: Key, implicit: bool, vt: seq<byte> -> nat)
    requires Ok(s, vt) && i < |s.tabs| && key !in Keys(s, i)
    ensures var s' := AddTable(s, i, key, implicit); Ok(s', vt) && Extends(s, s') && Only(s, s', i, -1)
    ensures KeyLists(AddTable(s, i, key, implicit), i) == KeyLists(s, i).(ts := KeyLists(s, i).ts + [key])
  {
    var s1, s' := WithTab(s, key, T(s, i).level + 1, i, implicit), AddTable(s, i, key, implicit);
    WithTabKeeps(s, key, T(s, i).level + 1, i, implicit, vt);
    AttachNewKeeps(s, s1, i, key, s', vt);
  }

  /** The new table of `s1` becomes a sub-table of table `i`. */
  lemma AttachNewKeeps(s: Store, s1: Store, i: nat, key: Key, s': Store, vt: seq<byte> -> nat)
    requires Ok(s1, vt) && i < |s.tabs| < |s1.tabs| && Extends(s, s1) && Only(s, s1, -1, -1)
    requires KeyLists(s1, i) == KeyLists(s, i) && key !in Keys(s, i) && T(s1, |s.tabs|).key == key
    requires T(s1, |s.tabs|).level == T(s, i).level + 1 && T(s1, |s.tabs|).up == i
    requires s' == SetTab(s1, i, T(s, i).(tab := T(s, i).tab + [|s.tabs|]))
    ensures Ok(s', vt) && Extends(s, s') && Only(s, s', i, -1)
    ensures KeyLists(s', i) == KeyLists(s, i).(ts := KeyLists(s, i).ts + [key])
  {
    assert T(s1, i) == T(s, i);
    AttachTableKeeps(s1, i, |s.tabs|, vt);
    ExtendsTwice(s, s1, s');
    OnlyTwice(s, s1, s', i, -1);
  }

  lemma AddArrayKeeps(s: Store, i: nat, key: Key, vt: seq<byte> -> nat)
    requires Ok(s, vt) && i < |s.tabs| && key !in Keys(s, i)
    ensures var s' := AddArray(s, i, key); Ok(s', vt) && Extends(s, s') && Only(s, s', i, -1)
    ensures KeyLists(AddArray(s, i, key), i) == KeyLists(s, i).(rs := KeyLists(s, i).rs + [key])
  {
    var s', l := AddArray(s, i, key), KeyLists(s, i);
    assert TabOk(s, i);
    assert KeyLists(s', i).vs == l.vs && KeyLists(s', i).ts == l.ts && KeyLists(s', i).rs == l.rs + [key];
    l.MoreArrays(key);
    assert ArrOk(s', |s.arrs|, vt);
    OkAfter(s, s', i, -1, vt);
  }

  lemma PromoteKeeps(s: Store, i: nat, vt: seq<byte> -> nat)
    requires Ok(s, vt) && i < |s.tabs| && T(s, i).implicit
    ensures var s' := Promote(s, i); Ok(s', vt) && Extends(s, s') && Only(s, s', i, -1)
    ensures KeyLists(Promote(s, i), i) == KeyLists(s, i)
  {
    var s' := Promote(s, i);
    assert TabOk(s, i);
    TabStillOk(s, s', i);
    OkAfter(s, s', i, -1, vt);
  }

  lemma PushValueKeeps(s: Store, b: nat, text: seq<byte>, vt: seq<byte> -> nat)
    requires Ok(s, vt) && b < |s.arrs|
    requires A(s, b).kind == Unknown || (A(s, b).kind == OfValues && (A(s, b).vals == [] || A(s, b).typ == vt(text)))
    ensures var s' := PushValue(s, b, text, vt); Ok(s', vt) && Extends(s, s') && Only(s, s', -1, b)
  {
    var s' := PushValue(s, b, text, vt);
    assert ArrOk(s, b, vt);
    OkAfter(s, s', -1, b, vt);
  }

  lemma PushArrayKeeps(s: Store, b: nat, vt: seq<byte> -> nat)
    requires Ok(s, vt) && b < |s.arrs| && A(s, b).kind in {Unknown, OfArrays}
    ensures var s' := PushArray(s, b); Ok(s', vt) && Extends(s, s') && Only(s, s', -1, b)
  {
    var s' := PushArray(s, b);
    assert ArrOk(s, b, vt) && ArrOk(s', |s.arrs|, vt);
    OkAfter(s, s', -1, b, vt);
  }

  /** Table `n` becomes the last element of array `b`. */
  lemma AttachElementKeeps(s: Store, b: nat, n: nat, vt: seq<byte> -> nat)
    requires Ok(s, vt) && b < |s.arrs| && A(s, b).kind in {Unknown, OfTables}
    requires n < |s.tabs| && n in s.explicit && T(s, n).level == A(s, b).level + 1
    ensures var s' := SetArr(s, b, A(s, b).(kind := OfTables, tabs := A(s, b).tabs + [n]));
      Ok(s', vt) && Extends(s, s') && Only(s, s', -1, b)
  {
    var s' := SetArr(s, b, A(s, b).(kind := OfTables, tabs := A(s, b).tabs + [n]));
    assert ArrOk(s, b, vt);
    ExplicitSame(s, s');
    OkAfter(s, s', -1, b, vt);
  }

  lemma PushTableKeeps(s: Store, b: nat, key: Key, vt: seq<byte> -> nat)
    requires Ok(s, vt) && b < |s.arrs| && A(s, b).kind in {Unknown, OfTables}
    ensures var s' := PushTable(s, b, key); Ok(s', vt) && Extends(s, s') && Only(s, s', -1, b)
  {
    var s1, s' := WithTab(s, key, A(s, b).level + 1, |s.tabs|, false), PushTable(s, b, key);
    WithTabKeeps(s, key, A(s, b).level + 1, |s.tabs|, false, vt);
    assert A(s1, b) == A(s, b);
    AttachElementKeeps(s1, b, |s.tabs|, vt);
    ExtendsTwice(s, s1, s');
    OnlyTwice(s, s1, s', -1, b);
  }
}
