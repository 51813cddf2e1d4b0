/** Building a TOML document: assignments and headers, applied to the tables in place. */
module TomlDocument {
  import opened Bytes
  import opened TomlKeys
  import opened TomlStore
  import opened TomlHeaders
  import opened TomlInline
  import opened TomlRuns
  import opened TomlTables

  /** The objects are those with the given numbers. */
  ghost predicate Refs<O>(objs: seq<O>, ids: seq<nat>, all: seq<O>) {
    |objs| == |ids| && forall j :: 0 <= j < |ids| ==> ids[j] < |all| && objs[j] == all[ids[j]]
  }

  class Doc {
    /** The type tag of a value's text. */
    const valtype: seq<byte> -> nat
    var root: Tab
    var curtab: Tab
    /** The document as a value; table number `i` is the object `tables[i]`. */
    ghost var store: Store
    ghost var tables: seq<Tab>
    ghost var arrays: seq<Arr>

    ghost predicate TabMatches(i: nat)
      requires i < |tables|
      reads this`store, this`tables, this`arrays, tables[i]
    {
      var t, r := tables[i], T(store, i);
      && t.key == r.key && t.implicit == r.implicit && t.kval == r.kval
      && Refs(t.arr, r.arr, arrays) && Refs(t.tab, r.tab, tables)
    }

    ghost predicate ArrMatches(b: nat)
      requires b < |arrays|
      reads this`store, this`tables, this`arrays, arrays[b]
    {
      var a, r := arrays[b], A(store, b);
      && a.key == r.key && a.kind == r.kind && a.typ == r.typ && a.vals == r.vals
      && Refs(a.arrs, r.arrs, arrays) && Refs(a.tabs, r.tabs, tables)
    }

    ghost predicate Valid()
      reads this, tables, arrays
    {
      && |tables| == |store.tabs| && |arrays| == |store.arrs| && Distinct(tables) && Distinct(arrays)
      && Ok(store, valtype) && root == tables[0] && curtab == tables[store.cur]
      && (forall i {:trigger TabMatches(i)} :: 0 <= i < |tables| ==> TabMatches(i))
      && (forall b {:trigger ArrMatches(b)} :: 0 <= b < |arrays| ==> ArrMatches(b))
    }

    /** Only new tables and arrays have been added to the document. */
    twostate predicate Grown()
      reads this
    {
      && old(tables) <= tables && (forall i :: |old(tables)| <= i < |tables| ==> fresh(tables[i]))
      && old(arrays) <= arrays && (forall b :: |old(arrays)| <= b < |arrays| ==> fresh(arrays[b]))
    }

    constructor (valtype: seq<byte> -> nat)
      ensures Valid() && this.valtype == valtype && store == INITIAL
      ensures fresh(tables[0]) && |tables| == 1 && arrays == []
    {
      var t := new Tab(NO_KEY, false);
      this.valtype, root, curtab := valtype, t, t;
      store, tables, arrays := INITIAL, [t], [];
      InitialOk(valtype);
    }

    /** The lookup in an object is the lookup in its record. */
    lemma SameKeys(i: nat)
      requires Valid() && i < |tables|
      ensures ListsOf(tables[i]) == KeyLists(store, i)
    {
      assert TabMatches(i) && TabOk(store, i);
      var t, r := tables[i], T(store, i);
      forall j | 0 <= j < |r.arr| ensures ArrayKeys(t.arr)[j] == ArrKeys(store, r.arr)[j] {
        assert ArrMatches(r.arr[j]);
      }
      forall j | 0 <= j < |r.tab| ensures TableKeys(t.tab)[j] == TabKeys(store, r.tab)[j] {
        assert TabMatches(r.tab[j]);
      }
    }

    /** In every document the keys of a table are distinct across its three lists. */
    lemma KeysDistinct(i: nat)
      requires Valid() && i < |tables|
      ensures Distinct(KeysOf(tables[i]))
    {
      SameKeys(i);
      assert TabOk(store, i);
    }

    // ---- Creating values, tables and arrays ----------------------------------------------------

    /** A new value; a key that is already in one of the three lists is refused. */
    method CreateKeyval(t: Tab, ghost i: nat, key: Key, val: seq<byte>) returns (ok: bool)
      requires Valid() && i < |tables| && tables[i] == t
      modifies this`store, t`kval
      ensures Valid()
      ensures ok <==> Find(old(store), i, key).Absent?
      ensures store == if ok then AddValue(old(store), i, KeyVal(key, val)) else old(store)
    {
      SameKeys(i);
      if CheckKey(t, key) != Absent {
        return false;
      }
      AddValueKeeps(store, i, KeyVal(key, val), valtype);
      assert TabMatches(i);
      t.kval := t.kval + [KeyVal(key, val)];
      store := AddValue(store, i, KeyVal(key, val));
      forall k | 0 <= k < |tables| ensures TabMatches(k) {
        assert k != i ==> old(TabMatches(k));
      }
      forall b | 0 <= b < |arrays| ensures ArrMatches(b) {
        assert old(ArrMatches(b));
      }
      return true;
    }

    /** A new table at the end of the sub-tables of `t`. */
    method AppendTable(t: Tab, ghost i: nat, key: Key, implicit: bool) returns (n: Tab)
      requires Valid() && i < |tables| && tables[i] == t && key !in Keys(store, i)
      modifies this`store, this`tables, t`tab
      ensures Valid() && fresh(n)
      ensures tables == old(tables) + [n] && store == AddTable(old(store), i, key, implicit)
    {
      AddTableKeeps(store, i, key, implicit, valtype);
      assert TabMatches(i);
      n := new Tab(key, implicit);
      t.tab := t.tab + [n];
      tables := tables + [n];
      store := AddTable(store, i, key, implicit);
      forall k | 0 <= k < |tables| ensures TabMatches(k) {
        assert k != i && k < |old(tables)| ==> old(TabMatches(k));
      }
      forall c | 0 <= c < |arrays| ensures ArrMatches(c) {
        assert c < |old(arrays)| ==> old(ArrMatches(c));
      }
    }

    method AppendArray(t: Tab, ghost i: nat, key: Key) returns (a: Arr)
      requires Valid() && i < |tables| && tables[i] == t && key !in Keys(store, i)
      modifies this`store, this`arrays, t`arr
      ensures Valid() && fresh(a)
      ensures arrays == old(arrays) + [a] && store == AddArray(old(store), i, key)
    {
      AddArrayKeeps(store, i, key, valtype);
      assert TabMatches(i);
      a := new Arr(key);
      t.arr := t.arr + [a];
      arrays := arrays + [a];
      store := AddArray(store, i, key);
      forall k | 0 <= k < |tables| ensures TabMatches(k) {
        assert k != i ==> old(TabMatches(k));
      }
      forall c | 0 <= c < |arrays| ensures ArrMatches(c) {
        assert c < |old(arrays)| ==> old(ArrMatches(c));
      }
    }

    /** A table that only existed because of a longer path is given its own header. */
    method MakeExplicit(t: Tab, ghost i: nat)
      requires Valid() && i < |tables| && tables[i] == t && t.implicit
      modifies this`store, t`implicit
      ensures Valid() && store == Promote(old(store), i)
    {
      assert TabMatches(i);
      PromoteKeeps(store, i, valtype);
      t.implicit := false;
      store := Promote(store, i);
      forall k | 0 <= k < |tables| ensures TabMatches(k) {
        assert k != i ==> old(TabMatches(k));
      }
      forall c | 0 <= c < |arrays| ensures ArrMatches(c) {
        assert c < |old(arrays)| ==> old(ArrMatches(c));
      }
    }

    /**
     * The table of a header or of an inline table: a new one, or one that so far only existed
     * because a longer path led through it.
     */
    method CreateKeytable(t: Tab, ghost i: nat, key: Key) returns (r: Option<Tab>, ghost n: nat)
      requires Valid() && i < |tables| && tables[i] == t
      modifies this`store, this`tables, t`tab, t.tab`implicit
      ensures Valid() && Grown()
      ensures r.Some? <==> KeyTable(old(store), i, key).Some?
      ensures r.Some? ==> KeyTable(old(store), i, key) == Some((store, n)) && n < |tables| && tables[n] == r.value
      ensures r.None? ==> store == old(store) && tables == old(tables)
    {
      SameKeys(i);
      assert TabMatches(i) && TabOk(store, i);
      match CheckKey(t, key)
      case Absent =>
        n := |tables|;
        var new_ := AppendTable(t, i, key, false);
        r := Some(new_);
      case AtTable(j) =>
        n := T(store, i).tab[j];
        assert TabMatches(n);
        var dest := t.tab[j];
        if !dest.implicit {
          return None, 0;
        }
        MakeExplicit(dest, n);
        r := Some(dest);
      case _ =>
        r, n := None, 0;
    }

    /** The array of a key: a new one, or with `skipIfExist` the one that is there. */
    method CreateKeyarray(t: Tab, ghost i: nat, key: Key, skipIfExist: bool) returns (r: Option<Arr>, ghost b: nat)
      requires Valid() && i < |tables| && tables[i] == t
      modifies this`store, this`arrays, t`arr
      ensures Valid() && Grown()
      ensures r.Some? <==> KeyArray(old(store), i, key, skipIfExist).Some?
      ensures r.Some? ==>
        KeyArray(old(store), i, key, skipIfExist) == Some((store, b)) && b < |arrays| && arrays[b] == r.value
      ensures r.None? ==> store == old(store) && arrays == old(arrays)
    {
      SameKeys(i);
      assert TabMatches(i) && TabOk(store, i);
      match CheckKey(t, key)
      case Absent =>
        b := |arrays|;
        var a := AppendArray(t, i, key);
        r := Some(a);
      case AtArray(j) =>
        b := T(store, i).arr[j];
        r := if skipIfExist then Some(t.arr[j]) else None;
      case _ =>
        r, b := None, 0;
    }

    // ---- Elements of arrays --------------------------------------------------------------------

    method AppendValue(a: Arr, ghost b: nat, text: seq<byte>)
      requires Valid() && b < |arrays| && arrays[b] == a && Takes(A(store, b), Raw(text), valtype)
      modifies this`store, a`kind, a`typ, a`vals
      ensures Valid() && store == PushValue(old(store), b, text, valtype)
    {
      PushValueKeeps(store, b, text, valtype);
      assert ArrMatches(b);
      a.kind := OfValues;
      a.typ := valtype(text);
      a.vals := a.vals + [text];
      store := PushValue(store, b, text, valtype);
      forall k | 0 <= k < |tables| ensures TabMatches(k) {
        assert k < |old(tables)| ==> old(TabMatches(k));
      }
      forall c | 0 <= c < |arrays| ensures ArrMatches(c) {
        assert c != b ==> old(ArrMatches(c));
      }
    }

    method AppendInnerArray(a: Arr, ghost b: nat) returns (n: Arr)
      requires Valid() && b < |arrays| && arrays[b] == a && A(store, b).kind in {Unknown, OfArrays}
      modifies this`store, this`arrays, a`kind, a`arrs
      ensures Valid() && fresh(n) && arrays == old(arrays) + [n] && store == PushArray(old(store), b)
    {
      PushArrayKeeps(store, b, valtype);
      assert ArrMatches(b);
      n := new Arr(NO_KEY);
      a.kind := OfArrays;
      a.arrs := a.arrs + [n];
      arrays := arrays + [n];
      store := PushArray(store, b);
      forall k | 0 <= k < |tables| ensures TabMatches(k) {
        assert k < |old(tables)| ==> old(TabMatches(k));
      }
      forall c | 0 <= c < |arrays| ensures ArrMatches(c) {
        assert c != b && c < |old(arrays)| ==> old(ArrMatches(c));
      }
    }

    /** A new explicit table at the end of an array of tables. */
    method AppendInnerTable(a: Arr, ghost b: nat, key: Key) returns (n: Tab)
      requires Valid() && b < |arrays| && arrays[b] == a && A(store, b).kind in {Unknown, OfTables}
      modifies this`store, this`tables, a`kind, a`tabs
      ensures Valid() && fresh(n) && tables == old(tables) + [n] && store == PushTable(old(store), b, key)
    {
      PushTableKeeps(store, b, key, valtype);
      assert ArrMatches(b);
      n := new Tab(key, false);
      a.kind := OfTables;
      a.tabs := a.tabs + [n];
      tables := tables + [n];
      store := PushTable(store, b, key);
      forall k | 0 <= k < |tables| ensures TabMatches(k) {
        assert k < |old(tables)| ==> old(TabMatches(k));
      }
      forall c | 0 <= c < |arrays| ensures ArrMatches(c) {
        assert c != b ==> old(ArrMatches(c));
      }
    }

    // ---- Headers -------------------------------------------------------------------------------

    /** The last table of an array of tables. */
    method LastTable(a: Arr, ghost b: nat) returns (r: Option<Tab>, ghost n: nat)
      requires Valid() && b < |arrays| && arrays[b] == a
      ensures r.Some? <==> A(store, b).kind == OfTables && |A(store, b).tabs| > 0
      ensures r.Some? ==> n == A(store, b).tabs[|A(store, b).tabs| - 1] && n < |tables| && tables[n] == r.value
    {
      assert ArrMatches(b) && ArrOk(store, b, valtype);
      if a.kind != OfTables || |a.tabs| == 0 {
        return None, 0;
      }
      return Some(a.tabs[|a.tabs| - 1]), A(store, b).tabs[|a.tabs| - 1];
    }

    /** One segment of a path; a table that is missing is created, and counts as implicit. */
    method WalkStep(cur: Tab, ghost i: nat, key: Key) returns (r: Option<Tab>, ghost n: nat)
      requires Valid() && i < |tables| && tables[i] == cur
      modifies this`store, this`tables, cur`tab
      ensures Valid() && Grown() && (r.Some? ==> n < |tables| && tables[n] == r.value)
      ensures match Next(old(store), i, key)
        case Blocked => r.None? && store == old(store)
        case Reaches(m) => r.Some? && n == m && store == old(store)
        case Missing => r.Some? && n == |old(tables)| && store == AddTable(old(store), i, key, true)
    {
      SameKeys(i);
      assert TabMatches(i) && TabOk(store, i);
      match CheckKey(cur, key)
      case AtTable(j) =>
        r, n := Some(cur.tab[j]), T(store, i).tab[j];
      case AtArray(j) =>
        r, n := LastTable(cur.arr[j], T(store, i).arr[j]);
      case AtValue(_) =>
        r, n := None, 0;
      case Absent =>
        n := |tables|;
        var t := AppendTable(cur, i, key, true);
        r := Some(t);
    }

    /** Follows a path from the root, creating what is missing. */
    method WalkTabpath(path: seq<Key>) returns (r: Option<Tab>, ghost n: nat)
      requires Valid()
      modifies this`store, this`tables, tables`tab
      ensures Valid() && Grown() && (r.Some? ==> n < |tables| && tables[n] == r.value)
      ensures Walk(old(store), 0, path) == if r.Some? then Some((store, n)) else None
    {
      var cur, i := root, 0;
      ghost var rest := path;
      n := 0;
      while i < |path|
        invariant 0 <= i <= |path| && rest == path[i..] && root == old(root)
        invariant Valid() && Grown() && n < |tables| && tables[n] == cur
        invariant Walk(old(store), 0, path) == Walk(store, n, rest)
      {
        var next;
        next, n := WalkStep(cur, n, path[i]);
        if next.None? {
          return None, 0;
        }
        cur, i, rest := next.value, i + 1, rest[1..];
      }
      r := Some(cur);
    }

    /** `[[..z]]`: a new table at the end of the array `z`, which is created if it is missing. */
    method SelectElement(t: Tab, ghost p: nat, key: Key) returns (r: Option<Tab>)
      requires Valid() && p < |tables| && tables[p] == t
      modifies this`store, this`tables, this`arrays, t`arr, arrays`kind, arrays`tabs
      ensures Valid() && Grown()
      ensures SelectLast(old(store), p, key, true) == if r.Some? then Some(store.(cur := |tables| - 1)) else None
      ensures r.Some? ==> r.value == tables[|tables| - 1]
    {
      var a;
      ghost var b;
      a, b := CreateKeyarray(t, p, key, true);
      if a.None? {
        return None;
      }
      assert ArrMatches(b);
      if a.value.kind !in {Unknown, OfTables} {
        return None;
      }
      var n := AppendInnerTable(a.value, b, ANONYMOUS);
      r := Some(n);
    }

    method SetCurrent(t: Tab, ghost n: nat)
      requires Valid() && n < |tables| && tables[n] == t
      modifies this`store, this`curtab
      ensures Valid() && store == old(store).(cur := n)
    {
      SetCurKeeps(store, n, valtype);
      curtab := t;
      store := store.(cur := n);
      forall k | 0 <= k < |tables| ensures TabMatches(k) {
        assert old(TabMatches(k));
      }
      forall c | 0 <= c < |arrays| ensures ArrMatches(c) {
        assert old(ArrMatches(c));
      }
    }

    /** The last segment of `[x.y.z]`. */
    method FinishTable(t: Tab, ghost p: nat, key: Key) returns (ok: bool)
      requires Valid() && p < |tables| && tables[p] == t
      modifies this`store, this`tables, this`arrays, this`curtab, tables, arrays
      ensures Valid() && Grown()
      ensures ok <==> SelectLast(old(store), p, key, false).Some?
      ensures ok ==> SelectLast(old(store), p, key, false) == Some(store)
    {
      assert TabMatches(p) && TabOk(store, p);
      var r;
      ghost var n;
      r, n := CreateKeytable(t, p, key);
      ok := r.Some?;
      if ok {
        SetCurrent(r.value, n);
      }
    }

    /** The last segment of `[[x.y.z]]`. */
    method FinishElement(t: Tab, ghost p: nat, key: Key) returns (ok: bool)
      requires Valid() && p < |tables| && tables[p] == t
      modifies this`store, this`tables, this`arrays, this`curtab, tables, arrays
      ensures Valid() && Grown()
      ensures ok <==> SelectLast(old(store), p, key, true).Some?
      ensures ok ==> SelectLast(old(store), p, key, true) == Some(store)
    {
      var r := SelectElement(t, p, key);
      ok := r.Some?;
      if ok {
        SetCurrent(r.value, |tables| - 1);
      }
    }

    /** A header, `[x.y.z]` or `[[x.y.z]]`. */
    method ParseSelect(path: seq<Key>, double: bool) returns (ok: bool)
      requires Valid()
      modifies this`store, this`tables, this`arrays, this`curtab, tables, arrays
      ensures Valid() && Grown()
      ensures ok <==> Select(old(store), path, double).Some?
      ensures ok ==> Select(old(store), path, double) == Some(store)
    {
      if |path| == 0 || |path| > MAX_PATH {
        return false;
      }
      var t;
      ghost var p;
      t, p := WalkTabpath(path[..|path| - 1]);
      if t.None? {
        return false;
      }
      if double {
        ok := FinishElement(t.value, p, path[|path| - 1]);
      } else {
        ok := FinishTable(t.value, p, path[|path| - 1]);
      }
    }

    // ---- Assignments ---------------------------------------------------------------------------

    method AssignArray(t: Tab, ghost i: nat, key: Key, v: Inline) returns (ok: bool)
      requires Valid() && i < |tables| && tables[i] == t && v.Items?
      modifies this`store, this`tables, this`arrays, tables, arrays
      ensures Valid() && Grown()
      ensures ok <==> Assign(old(store), i, key, v, valtype).Some?
      ensures ok ==> Assign(old(store), i, key, v, valtype) == Some(store)
      decreases v, 1
    {
      assert TabMatches(i) && TabOk(store, i);
      var a;
      ghost var n;
      a, n := CreateKeyarray(t, i, key, false);
      if a.None? {
        return false;
      }
      ok := ReadArray(a.value, n, v);
    }

    method AssignTable(t: Tab, ghost i: nat, key: Key, v: Inline) returns (ok: bool)
      requires Valid() && i < |tables| && tables[i] == t && v.Entries?
      modifies this`store, this`tables, this`arrays, tables, arrays
      ensures Valid() && Grown()
      ensures ok <==> Assign(old(store), i, key, v, valtype).Some?
      ensures ok ==> Assign(old(store), i, key, v, valtype) == Some(store)
      decreases v, 1
    {
      assert TabMatches(i) && TabOk(store, i);
      var r;
      ghost var n;
      r, n := CreateKeytable(t, i, key);
      if r.None? {
        return false;
      }
      ok := ReadTable(r.value, n, v);
    }

    /** `key = v` */
    method AssignKey(t: Tab, ghost i: nat, key: Key, v: Inline) returns (ok: bool)
      requires Valid() && i < |tables| && tables[i] == t
      modifies this`store, this`tables, this`arrays, tables, arrays
      ensures Valid() && Grown()
      ensures ok <==> Assign(old(store), i, key, v, valtype).Some?
      ensures ok ==> Assign(old(store), i, key, v, valtype) == Some(store)
      decreases v, 2
    {
      match v
      case Raw(text) =>
        ok := CreateKeyval(t, i, key, text);
      case Items(_) =>
        ok := AssignArray(t, i, key, v);
      case Entries(_) =>
        ok := AssignTable(t, i, key, v);
    }

    /** `{ key = v, .. }` */
    method ReadTable(t: Tab, ghost i: nat, v: Inline) returns (ok: bool)
      requires Valid() && i < |tables| && tables[i] == t && v.Entries?
      modifies this`store, this`tables, this`arrays, tables, arrays
      ensures Valid() && Grown()
      ensures ok <==> FillTable(old(store), i, v, |v.entries|, valtype).Some?
      ensures ok ==> FillTable(old(store), i, v, |v.entries|, valtype) == Some(store)
      decreases v, 0
    {
      var k := 0;
      while k < |v.entries|
        invariant 0 <= k <= |v.entries| && Valid() && Grown()
        invariant FillTable(old(store), i, v, k, valtype) == Some(store)
      {
        ok := ReadEntry(t, i, v, k, old(store));
        if !ok {
          FillStops(old(store), i, v, k + 1, valtype);
          return;
        }
        k := k + 1;
      }
      ok := true;
    }

    /** The next entry, after `k` entries have turned `s` into the document as it is. */
    method ReadEntry(t: Tab, ghost i: nat, v: Inline, k: nat, ghost s: Store) returns (ok: bool)
      requires Valid() && i < |tables| && tables[i] == t && v.Entries? && k < |v.entries|
      requires FillTable(s, i, v, k, valtype) == Some(store)
      modifies this`store, this`tables, this`arrays, tables, arrays
      ensures Valid() && Grown()
      ensures ok <==> FillTable(s, i, v, k + 1, valtype).Some?
      ensures ok ==> FillTable(s, i, v, k + 1, valtype) == Some(store)
      decreases v.entries[k].val, 3
    {
      FillUnfolds(s, store, i, v, k, valtype);
      ok := AssignKey(t, i, v.entries[k].key, v.entries[k].val);
    }

    /** `[ v, .. ]` */
    method ReadArray(a: Arr, ghost b: nat, v: Inline) returns (ok: bool)
      requires Valid() && b < |arrays| && arrays[b] == a && v.Items?
      modifies this`store, this`tables, this`arrays, tables, arrays
      ensures Valid() && Grown()
      ensures ok <==> FillArray(old(store), b, v, |v.items|, valtype).Some?
      ensures ok ==> FillArray(old(store), b, v, |v.items|, valtype) == Some(store)
      decreases v, 0
    {
      var k := 0;
      while k < |v.items|
        invariant 0 <= k <= |v.items| && Valid() && Grown()
        invariant FillArray(old(store), b, v, k, valtype) == Some(store)
      {
        ok := ReadItem(a, b, v.items[k]);
        if !ok {
          ArrayStops(old(store), b, v, k + 1, valtype);
          return;
        }
        k := k + 1;
      }
      ok := true;
    }

    /** One element of an array, unless it is of another kind or type than those before. */
    method ReadItem(a: Arr, ghost b: nat, v: Inline) returns (ok: bool)
      requires Valid() && b < |arrays| && arrays[b] == a
      modifies this`store, this`tables, this`arrays, tables, arrays
      ensures Valid() && Grown()
      ensures ok <==> AddItem(old(store), b, v, valtype).Some?
      ensures ok ==> AddItem(old(store), b, v, valtype) == Some(store)
      decreases v, 1
    {
      assert ArrMatches(b);
      match v
      case Raw(text) =>
        if a.kind != Unknown && (a.kind != OfValues || (a.vals != [] && a.typ != valtype(text))) {
          return false;
        }
        AppendValue(a, b, text);
        ok := true;
      case Items(_) =>
        if a.kind !in {Unknown, OfArrays} {
          return false;
        }
        var n := AppendInnerArray(a, b);
        ok := ReadArray(n, |arrays| - 1, v);
      case Entries(_) =>
        if a.kind !in {Unknown, OfTables} {
          return false;
        }
        var n := AppendInnerTable(a, b, NO_KEY);
        ok := ReadTable(n, |tables| - 1, v);
    }

    /** One line. */
    method LoadLine(line: Line) returns (ok: bool)
      requires Valid()
      modifies this`store, this`tables, this`arrays, this`curtab, tables, arrays
      ensures Valid() && Grown()
      ensures ok <==> Apply(old(store), line, valtype).Some?
      ensures ok ==> Leads(old(store), line, store, valtype)
    {
      match line {
        case AssignLine(key, v) =>
          ok := AssignKey(curtab, store.cur, key, v);
        case SelectLine(path, double) =>
          ok := ParseSelect(path, double);
      }
    }

    /** The next line; `tr` grows by the document that it leaves. */
    method LoadNext(lines: seq<Line>, i: nat, ghost tr: seq<Store>) returns (ok: bool, ghost tr': seq<Store>)
      requires Valid() && i < |lines| && Traced(tr, lines, i, store, valtype)
      modifies this`store, this`tables, this`arrays, this`curtab, tables, arrays
      ensures Valid() && Grown()
      ensures if ok then Traced(tr', lines, i + 1, store, valtype) else Stopped(tr', lines, valtype)
    {
      ok := LoadLine(lines[i]);
      if !ok {
        return false, tr;
      }
      TraceNext(tr, lines, store, valtype);
      tr' := tr + [store];
    }

    method LoadLines(lines: seq<Line>) returns (ok: bool, ghost tr: seq<Store>)
      requires Valid() && store == INITIAL
      modifies this`store, this`tables, this`arrays, this`curtab, tables, arrays
      ensures Valid() && Grown()
      ensures if ok then Traced(tr, lines, |lines|, store, valtype) else Stopped(tr, lines, valtype)
    {
      tr := [store];
      TraceStarts(lines, valtype);
      for i := 0 to |lines|
        invariant Valid() && Grown()
        invariant Traced(tr, lines, i, store, valtype)
      {
        ok, tr := LoadNext(lines, i, tr);
        if !ok {
          return;
        }
      }
      ok := true;
    }
  }

  /**
   * Loads a document up to the first line that is refused.  `tr` are the documents after each line
   * that was accepted; the objects are those of the last one, or of what the refused line left.
   */
  method Load(lines: seq<Line>, valtype: seq<byte> -> nat) returns (doc: Doc, ok: bool, ghost tr: seq<Store>)
    ensures fresh(doc) && doc.Valid() && doc.valtype == valtype
    ensures ok <==> Accepted(lines, valtype)
    ensures Trace(tr, lines, valtype) && (ok <==> |tr| == |lines| + 1)
    ensures AllMayLoad(tr, lines, valtype) && AllHeld(tr, lines)
    ensures ok ==> doc.store == tr[|lines|]
    ensures !ok ==> !MayLoad(tr[|tr| - 1], lines[|tr| - 1], valtype)
  {
    doc := new Doc(valtype);
    ok, tr := doc.LoadLines(lines);
    TraceLoads(tr, lines, valtype);
    TraceHolds(tr, lines, valtype);
    if !ok {
      RefusedForGood(tr, lines, valtype);
      RefusedExactly(tr, lines, valtype);
    }
  }
}
