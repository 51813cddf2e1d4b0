/** What the assignments of a TOML document do to its tables, and what a table then holds. */
module TomlInline {
  import opened Bytes
  import opened TomlKeys
  import opened TomlStore
  import opened TomlHeaders

  /** What can stand to the right of `=`: a raw token, an inline array or an inline table. */
  datatype Inline = Raw(text: seq<byte>) | Items(items: seq<Inline>) | Entries(entries: seq<Entry>)
  datatype Entry = Entry(key: Key, val: Inline)

  // ---- The assignments -------------------------------------------------------------------------------

  /** `key = v` in table `i`. */
  function Assign(s: Store, i: nat, key: Key, v: Inline, vt: seq<byte> -> nat): Option<Store>
    decreases v, 2, 0
  {
    match v
    case Raw(text) => if Find(s, i, key).Absent? then Some(AddValue(s, i, KeyVal(key, text))) else None
    case Items(_) =>
      (match KeyArray(s, i, key, false)
       case None => None
       case Some((s1, b)) => FillArray(s1, b, v, |v.items|, vt))
    case Entries(_) =>
      (match KeyTable(s, i, key)
       case None => None
       case Some((s1, n)) => FillTable(s1, n, v, |v.entries|, vt))
  }

  /** The first `n` entries of an inline table, in table `i`. */
  function FillTable(s: Store, i: nat, v: Inline, n: nat, vt: seq<byte> -> nat): Option<Store>
    requires v.Entries? && n <= |v.entries|
    decreases v, 0, n
  {
    if n == 0 then Some(s)
    else
      match FillTable(s, i, v, n - 1, vt)
      case None => None
      case Some(s1) => AssignEntry(s1, i, v, n - 1, vt)
  }

  function AssignEntry(s: Store, i: nat, v: Inline, n: nat, vt: seq<byte> -> nat): Option<Store>
    requires v.Entries? && n < |v.entries|
    decreases v.entries[n].val, 3, 0
  {
    Assign(s, i, v.entries[n].key, v.entries[n].val, vt)
  }

  /** The first `n` elements of an inline array, in array `b`. */
  function FillArray(s: Store, b: nat, v: Inline, n: nat, vt: seq<byte> -> nat): Option<Store>
    requires v.Items? && n <= |v.items|
    decreases v, 0, n
  {
    if n == 0 then Some(s)
    else
      match FillArray(s, b, v, n - 1, vt)
      case None => None
      case Some(s1) => AddItem(s1, b, v.items[n - 1], vt)
  }

  /** One more element, unless it is of another kind or type than those before. */
  function AddItem(s: Store, b: nat, v: Inline, vt: seq<byte> -> nat): Option<Store>
    decreases v, 1, 0
  {
    if !Takes(A(s, b), v, vt) then None
    else
      match v
      case Raw(text) => Some(PushValue(s, b, text, vt))
      case Items(_) => FillArray(PushArray(s, b), |s.arrs|, v, |v.items|, vt)
      case Entries(_) => FillTable(PushTable(s, b, NO_KEY), |s.tabs|, v, |v.entries|, vt)
  }

  lemma FillUnfolds(s: Store, s1: Store, i: nat, v: Inline, n: nat, vt: seq<byte> -> nat)
    requires v.Entries? && n < |v.entries| && FillTable(s, i, v, n, vt) == Some(s1)
    ensures FillTable(s, i, v, n + 1, vt) == Assign(s1, i, v.entries[n].key, v.entries[n].val, vt)
  {
  }

  /** Once refused, refused for good. */
  lemma {:induction false} FillStops(s: Store, i: nat, v: Inline, n: nat, vt: seq<byte> -> nat)
    requires v.Entries? && n <= |v.entries| && FillTable(s, i, v, n, vt).None?
    ensures FillTable(s, i, v, |v.entries|, vt).None?
    decreases |v.entries| - n
  {
    if n < |v.entries| {
      FillStops(s, i, v, n + 1, vt);
    }
  }

  lemma {:induction false} ArrayStops(s: Store, b: nat, v: Inline, n: nat, vt: seq<byte> -> nat)
    requires v.Items? && n <= |v.items| && FillArray(s, b, v, n, vt).None?
    ensures FillArray(s, b, v, |v.items|, vt).None?
    decreases |v.items| - n
  {
    if n < |v.items| {
      ArrayStops(s, b, v, n + 1, vt);
    }
  }

  /** Whether an array's next element may be `v`. */
  predicate Takes(a: ArrRec, v: Inline, vt: seq<byte> -> nat) {
    match v
    case Raw(text) => a.kind == Unknown || (a.kind == OfValues && (a.vals == [] || a.typ == vt(text)))
    case Items(_) => a.kind in {Unknown, OfArrays}
    case Entries(_) => a.kind in {Unknown, OfTables}
  }

  // ---- Which values can be loaded --------------------------------------------------------------------

  /** The element `v` may stand beside `first` in one array. */
  predicate Alike(v: Inline, first: Inline, vt: seq<byte> -> nat) {
    match (v, first)
    case (Raw(x), Raw(y)) => vt(x) == vt(y)
    case (Items(_), Items(_)) => true
    case (Entries(_), Entries(_)) => true
    case _ => false
  }

  /** No inline table gives a key twice, and no inline array mixes kinds or types. */
  ghost predicate Loadable(v: Inline, vt: seq<byte> -> nat)
    decreases v, 1
  {
    match v
    case Raw(_) => true
    case Items(vs) => ItemsFit(v, |vs|, vt)
    case Entries(es) => EntriesFit(v, |es|, vt)
  }

  ghost predicate EntryFits(v: Inline, k: nat, vt: seq<byte> -> nat)
    requires v.Entries? && k < |v.entries|
    decreases v.entries[k].val, 2
  {
    NewKey(v.entries, k) && Loadable(v.entries[k].val, vt)
  }

  ghost predicate ItemFits(v: Inline, k: nat, vt: seq<byte> -> nat)
    requires v.Items? && k < |v.items|
    decreases v.items[k], 2
  {
    Alike(v.items[k], v.items[0], vt) && Loadable(v.items[k], vt)
  }

  ghost predicate EntriesFit(v: Inline, n: nat, vt: seq<byte> -> nat)
    requires v.Entries? && n <= |v.entries|
    decreases v, 0
  {
    forall k :: 0 <= k < n ==> EntryFits(v, k, vt)
  }

  ghost predicate ItemsFit(v: Inline, n: nat, vt: seq<byte> -> nat)
    requires v.Items? && n <= |v.items|
    decreases v, 0
  {
    forall k :: 0 <= k < n ==> ItemFits(v, k, vt)
  }

  ghost predicate NewKey(es: seq<Entry>, k: nat)
    requires k < |es|
  {
    forall j :: 0 <= j < k ==> es[j].key != es[k].key
  }

  // ---- What a table or an array holds ----------------------------------------------------------------

  /** The table has the entries of the inline table `v`; with `exact` also nothing else. */
  ghost predicate HoldsTable(s: Store, i: nat, v: Inline, exact: bool)
    decreases v, 0
  {
    && v.Entries? && i < |s.tabs| && (exact ==> |Keys(s, i)| == |v.entries|)
    && forall k {:trigger HoldsEntry(s, i, v.entries[k].key, v.entries[k].val, exact)} :: 0 <= k < |v.entries| ==>
         HoldsEntry(s, i, v.entries[k].key, v.entries[k].val, exact)
  }

  ghost predicate HoldsEntry(s: Store, i: nat, key: Key, v: Inline, exact: bool)
    decreases v, 1
  {
    && i < |s.tabs|
    && match (v, Find(s, i, key))
       case (Raw(text), AtValue(j)) => T(s, i).kval[j].val == text
       case (Items(_), AtArray(j)) => HoldsArray(s, T(s, i).arr[j], v, exact)
       case (Entries(_), AtTable(j)) => HoldsTable(s, T(s, i).tab[j], v, exact)
       case _ => false
  }

  function Count(a: ArrRec): nat {
    |a.vals| + |a.arrs| + |a.tabs|
  }

  /** The array has the elements of the inline array `v` in this order; with `exact` also no more. */
  ghost predicate HoldsArray(s: Store, b: nat, v: Inline, exact: bool)
    decreases v, 0
  {
    && v.Items? && b < |s.arrs| && (exact ==> Count(A(s, b)) == |v.items|)
    && forall k {:trigger HoldsItem(s, b, k, v.items[k], exact)} :: 0 <= k < |v.items| ==>
         HoldsItem(s, b, k, v.items[k], exact)
  }

  ghost predicate HoldsItem(s: Store, b: nat, k: nat, v: Inline, exact: bool)
    decreases v, 1
  {
    && b < |s.arrs|
    && match v
       case Raw(text) => k < |A(s, b).vals| && A(s, b).vals[k] == text
       case Items(_) => k < |A(s, b).arrs| && HoldsArray(s, A(s, b).arrs[k], v, exact)
       case Entries(_) => k < |A(s, b).tabs| && HoldsTable(s, A(s, b).tabs[k], v, exact)
  }

  /** What is held exactly is held. */
  lemma {:induction false} EntryWeaker(s: Store, i: nat, key: Key, v: Inline)
    requires HoldsEntry(s, i, key, v, true)
    ensures HoldsEntry(s, i, key, v, false)
    decreases v, 1
  {
    match v
    case Raw(_) =>
    case Items(_) => ArrayWeaker(s, T(s, i).arr[Find(s, i, key).i], v);
    case Entries(_) => TableWeaker(s, T(s, i).tab[Find(s, i, key).i], v);
  }

  lemma {:induction false} TableWeaker(s: Store, i: nat, v: Inline)
    requires HoldsTable(s, i, v, true)
    ensures HoldsTable(s, i, v, false)
    decreases v, 0
  {
    forall k | 0 <= k < |v.entries| ensures HoldsEntry(s, i, v.entries[k].key, v.entries[k].val, false) {
      EntryWeaker(s, i, v.entries[k].key, v.entries[k].val);
    }
  }

  lemma {:induction false} ArrayWeaker(s: Store, b: nat, v: Inline)
    requires HoldsArray(s, b, v, true)
    ensures HoldsArray(s, b, v, false)
    decreases v, 0
  {
    forall k | 0 <= k < |v.items| ensures HoldsItem(s, b, k, v.items[k], false) {
      assert HoldsItem(s, b, k, v.items[k], true);
      match v.items[k]
      case Raw(_) =>
      case Items(_) => ArrayWeaker(s, A(s, b).arrs[k], v.items[k]);
      case Entries(_) => TableWeaker(s, A(s, b).tabs[k], v.items[k]);
    }
  }

  /** What is held stays held, whatever is added to the document. */
  lemma {:induction false} EntryGrows(s: Store, s': Store, i: nat, key: Key, v: Inline, vt: seq<byte> -> nat)
    requires Ok(s, vt) && Ok(s', vt) && Extends(s, s') && HoldsEntry(s, i, key, v, false)
    ensures HoldsEntry(s', i, key, v, false)
    decreases v, 1
  {
    assert TabOk(s, i) && TabOk(s', i) && TabGrows(T(s, i), T(s', i));
    FoundAgain(s, s', i, key);
    match v
    case Raw(_) =>
    case Items(_) => ArrayGrows(s, s', T(s, i).arr[Find(s, i, key).i], v, vt);
    case Entries(_) => TableGrows(s, s', T(s, i).tab[Find(s, i, key).i], v, vt);
  }

  lemma {:induction false} TableGrows(s: Store, s': Store, i: nat, v: Inline, vt: seq<byte> -> nat)
    requires Ok(s, vt) && Ok(s', vt) && Extends(s, s') && HoldsTable(s, i, v, false)
    ensures HoldsTable(s', i, v, false)
    decreases v, 0
  {
    forall k | 0 <= k < |v.entries| ensures HoldsEntry(s', i, v.entries[k].key, v.entries[k].val, false) {
      EntryGrows(s, s', i, v.entries[k].key, v.entries[k].val, vt);
    }
  }

  lemma {:induction false} ArrayGrows(s: Store, s': Store, b: nat, v: Inline, vt: seq<byte> -> nat)
    requires Ok(s, vt) && Ok(s', vt) && Extends(s, s') && HoldsArray(s, b, v, false)
    ensures HoldsArray(s', b, v, false)
    decreases v, 0
  {
    assert ArrGrows(A(s, b), A(s', b));
    forall k | 0 <= k < |v.items| ensures HoldsItem(s', b, k, v.items[k], false) {
      assert HoldsItem(s, b, k, v.items[k], false);
      match v.items[k]
      case Raw(_) =>
      case Items(_) => ArrayGrows(s, s', A(s, b).arrs[k], v.items[k], vt);
      case Entries(_) => TableGrows(s, s', A(s, b).tabs[k], v.items[k], vt);
    }
  }

  /** Nothing changed in the tables and arrays that are at least as deep as `level`. */
  ghost predicate KeptBelow(s: Store, s': Store, level: nat) {
    && |s.tabs| <= |s'.tabs| && |s.arrs| <= |s'.arrs|
    && (forall i {:trigger T(s', i)} :: 0 <= i < |s.tabs| && level <= T(s, i).level ==> T(s', i) == T(s, i))
    && (forall b {:trigger A(s', b)} :: 0 <= b < |s.arrs| && level <= A(s, b).level ==> A(s', b) == A(s, b))
  }

  /** What is held exactly stays so after a change to what is less deep. */
  lemma {:induction false} EntryKept(s: Store, s': Store, i: nat, key: Key, v: Inline, vt: seq<byte> -> nat)
    requires Ok(s, vt) && Ok(s', vt) && Extends(s, s') && HoldsEntry(s, i, key, v, true)
    requires KeptBelow(s, s', T(s, i).level + 1)
    ensures HoldsEntry(s', i, key, v, true)
    decreases v, 1
  {
    assert TabOk(s, i) && TabOk(s', i) && TabGrows(T(s, i), T(s', i));
    FoundAgain(s, s', i, key);
    match v
    case Raw(_) =>
    case Items(_) => ArrayKept(s, s', T(s, i).arr[Find(s, i, key).i], v, vt);
    case Entries(_) => TableKept(s, s', T(s, i).tab[Find(s, i, key).i], v, vt);
  }

  lemma {:induction false} TableKept(s: Store, s': Store, i: nat, v: Inline, vt: seq<byte> -> nat)
    requires Ok(s, vt) && Ok(s', vt) && Extends(s, s') && HoldsTable(s, i, v, true) && KeptBelow(s, s', T(s, i).level)
    ensures HoldsTable(s', i, v, true)
    decreases v, 0
  {
    assert TabOk(s, i) && T(s', i) == T(s, i);
    TabStillOk(s, s', i);
    forall k | 0 <= k < |v.entries| ensures HoldsEntry(s', i, v.entries[k].key, v.entries[k].val, true) {
      EntryKept(s, s', i, v.entries[k].key, v.entries[k].val, vt);
    }
  }

  lemma {:induction false} ArrayKept(s: Store, s': Store, b: nat, v: Inline, vt: seq<byte> -> nat)
    requires Ok(s, vt) && Ok(s', vt) && Extends(s, s') && HoldsArray(s, b, v, true) && KeptBelow(s, s', A(s, b).level)
    ensures HoldsArray(s', b, v, true)
    decreases v, 0
  {
    assert ArrOk(s, b, vt) && A(s', b) == A(s, b);
    forall k | 0 <= k < |v.items| ensures HoldsItem(s', b, k, v.items[k], true) {
      ItemKept(s, s', b, k, v.items[k], vt);
    }
  }

  lemma {:induction false} ItemKept(s: Store, s': Store, b: nat, k: nat, v: Inline, vt: seq<byte> -> nat)
    requires Ok(s, vt) && Ok(s', vt) && Extends(s, s') && HoldsItem(s, b, k, v, true)
    requires KeptBelow(s, s', A(s, b).level + 1)
    ensures HoldsItem(s', b, k, v, true)
    decreases v, 1
  {
    assert ArrOk(s, b, vt) && ArrGrows(A(s, b), A(s', b));
    match v
    case Raw(_) =>
    case Items(_) => ArrayKept(s, s', A(s, b).arrs[k], v, vt);
    case Entries(_) => TableKept(s, s', A(s, b).tabs[k], v, vt);
  }

  // ---- Assignments to new keys -----------------------------------------------------------------------

  /** One of the three lists has a new last key. */
  ghost predicate OneMore(l: Lists, l': Lists, key: Key) {
    || l' == l.(vs := l.vs + [key])
    || l' == l.(rs := l.rs + [key])
    || l' == l.(ts := l.ts + [key])
  }

  lemma OneMoreKey(l: Lists, l': Lists, key: Key)
    requires OneMore(l, l', key)
    ensures |l'.All()| == |l.All()| + 1 && forall k :: k in l'.All() <==> k in l.All() || k == key
  {
    if l' == l.(vs := l.vs + [key]) {
      assert l'.All() == l.vs + [key] + (l.rs + l.ts);
    }
  }

  ghost predicate AllExplicit(s: Store, i: nat) {
    forall j :: 0 <= j < |T(s, i).tab| ==> T(s, i).tab[j] in s.explicit
  }

  ghost predicate Listed(es: seq<Entry>, n: nat, key: Key)
    requires n <= |es|
  {
    exists j :: 0 <= j < n && es[j].key == key
  }

  /** The keys are those of the first `n` entries. */
  ghost predicate KeysAre(ks: seq<Key>, es: seq<Entry>, n: nat)
    requires n <= |es|
  {
    |ks| == n && forall k {:trigger Listed(es, n, k)} :: k in ks <==> Listed(es, n, k)
  }

  lemma KeysAreNext(ks: seq<Key>, ks': seq<Key>, es: seq<Entry>, n: nat)
    requires n < |es| && KeysAre(ks, es, n)
    requires |ks'| == |ks| + 1 && forall k :: k in ks' <==> k in ks || k == es[n].key
    ensures KeysAre(ks', es, n + 1)
  {
    forall k ensures k in ks' <==> Listed(es, n + 1, k) {
      assert k in ks <==> Listed(es, n, k);
    }
  }

  lemma NewKeyAbsent(ks: seq<Key>, es: seq<Entry>, n: nat)
    requires n < |es| && KeysAre(ks, es, n)
    ensures NewKey(es, n) <==> es[n].key !in ks
  {
    assert NewKey(es, n) <==> !Listed(es, n, es[n].key);
  }

  /** The table has the first `n` entries of `v` and nothing else; none of its sub-tables is implicit. */
  ghost predicate Filled(s: Store, i: nat, v: Inline, n: nat)
    requires v.Entries? && n <= |v.entries|
  {
    && i < |s.tabs| && KeysAre(Keys(s, i), v.entries, n) && AllExplicit(s, i)
    && forall k {:trigger HoldsEntry(s, i, v.entries[k].key, v.entries[k].val, true)} :: 0 <= k < n ==>
         HoldsEntry(s, i, v.entries[k].key, v.entries[k].val, true)
  }

  /** A change to table `i` and array `b` alone. */
  ghost predicate Changed(s: Store, s': Store, i: int, b: int, vt: seq<byte> -> nat) {
    Ok(s', vt) && Extends(s, s') && Only(s, s', i, b) && s'.cur == s.cur
  }

  lemma ChangedNothing(s: Store, i: int, b: int, vt: seq<byte> -> nat)
    requires Ok(s, vt)
    ensures Changed(s, s, i, b, vt)
  {
  }

  lemma ChangedTwice(s: Store, s1: Store, s2: Store, i: int, b: int, vt: seq<byte> -> nat)
    requires Changed(s, s1, i, b, vt) && Changed(s1, s2, i, b, vt)
    ensures Changed(s, s2, i, b, vt)
  {
    ExtendsTwice(s, s1, s2);
    OnlyTwice(s, s1, s2, i, b);
  }

  /** A change to something new is no change to what there was. */
  lemma ChangedNew(s: Store, s1: Store, s2: Store, i: int, n: int, b: int, vt: seq<byte> -> nat)
    requires Changed(s, s1, i, -1, vt) && Changed(s1, s2, n, b, vt)
    requires (n < 0 || |s.tabs| <= n) && (b < 0 || |s.arrs| <= b)
    ensures Changed(s, s2, i, -1, vt)
  {
    ExtendsTwice(s, s1, s2);
    assert forall j :: 0 <= j < |s.tabs| && j != i ==> T(s1, j) == T(s, j) && T(s2, j) == T(s1, j);
    assert forall c :: 0 <= c < |s.arrs| ==> A(s1, c) == A(s, c) && A(s2, c) == A(s1, c);
  }

  /** Everything that an assignment to a new key of table `i` does. */
  ghost predicate Assigned(s: Store, s': Store, i: nat, key: Key, v: Inline, vt: seq<byte> -> nat) {
    && Changed(s, s', i, -1, vt)
    && OneMore(KeyLists(s, i), KeyLists(s', i), key) && (AllExplicit(s, i) ==> AllExplicit(s', i))
    && HoldsEntry(s', i, key, v, true)
  }

  /** A new key is accepted exactly when its value is loadable, which is then held, and nothing else changes. */
  lemma {:induction false} AssignNew(s: Store, i: nat, key: Key, v: Inline, vt: seq<byte> -> nat)
    requires Ok(s, vt) && i < |s.tabs| && key !in Keys(s, i)
    ensures Assign(s, i, key, v, vt).Some? <==> Loadable(v, vt)
    ensures Assign(s, i, key, v, vt).Some? ==> Assigned(s, Assign(s, i, key, v, vt).value, i, key, v, vt)
    decreases v, 2, 0
  {
    match v
    case Raw(text) => AssignValue(s, i, key, text, vt);
    case Items(_) =>
      AddArrayKeeps(s, i, key, vt);
      FillNewArray(AddArray(s, i, key), |s.arrs|, v, |v.items|, vt);
      if Assign(s, i, key, v, vt).Some? {
        AssignedArray(s, i, key, v, Assign(s, i, key, v, vt).value, vt);
      }
    case Entries(_) =>
      AddTableKeeps(s, i, key, false, vt);
      NewTabFilled(AddTable(s, i, key, false), |s.tabs|, v);
      FillNewTable(AddTable(s, i, key, false), |s.tabs|, v, |v.entries|, vt);
      if Assign(s, i, key, v, vt).Some? {
        AssignedTable(s, i, key, v, Assign(s, i, key, v, vt).value, vt);
      }
  }

  lemma AssignValue(s: Store, i: nat, key: Key, text: seq<byte>, vt: seq<byte> -> nat)
    requires Ok(s, vt) && i < |s.tabs| && key !in Keys(s, i)
    ensures Assigned(s, AddValue(s, i, KeyVal(key, text)), i, key, Raw(text), vt)
  {
    var s' := AddValue(s, i, KeyVal(key, text));
    AddValueKeeps(s, i, KeyVal(key, text), vt);
    assert TabOk(s', i);
    KeyLists(s', i).FoundThere();
    assert KeyLists(s', i).vs[|T(s, i).kval|] == key;
  }

  lemma AssignedArray(s: Store, i: nat, key: Key, v: Inline, s': Store, vt: seq<byte> -> nat)
    requires Ok(s, vt) && i < |s.tabs| && key !in Keys(s, i) && v.Items?
    requires var s1 := AddArray(s, i, key);
      Changed(s1, s', -1, |s.arrs|, vt) && ArrayFilled(s', |s.arrs|, v, |v.items|, vt)
    ensures Assigned(s, s', i, key, v, vt)
  {
    var s1 := AddArray(s, i, key);
    AddArrayKeeps(s, i, key, vt);
    ChangedNew(s, s1, s', i, -1, |s.arrs|, vt);
    SameLists(s1, s', i, vt);
    ArrayEntry(s', i, key, |s.arrs|, v, vt);
  }

  lemma ArrayEntry(s: Store, i: nat, key: Key, b: nat, v: Inline, vt: seq<byte> -> nat)
    requires i < |s.tabs| && Distinct(Keys(s, i)) && v.Items? && ArrayFilled(s, b, v, |v.items|, vt)
    requires |T(s, i).arr| > 0 && T(s, i).arr[|T(s, i).arr| - 1] == b && KeyLists(s, i).rs[|T(s, i).arr| - 1] == key
    ensures HoldsEntry(s, i, key, v, true)
  {
    FoundLast(s, i, key);
  }

  lemma TableEntry(s: Store, i: nat, key: Key, n: nat, v: Inline)
    requires i < |s.tabs| && Distinct(Keys(s, i)) && v.Entries? && Filled(s, n, v, |v.entries|)
    requires |T(s, i).tab| > 0 && T(s, i).tab[|T(s, i).tab| - 1] == n && KeyLists(s, i).ts[|T(s, i).tab| - 1] == key
    ensures HoldsEntry(s, i, key, v, true)
  {
    FilledHolds(s, n, v);
    FoundLast(s, i, key);
  }

  /** The key of the last value, array or table of a list is found there. */
  lemma FoundLast(s: Store, i: nat, key: Key)
    requires Distinct(Keys(s, i))
    ensures |T(s, i).arr| > 0 && KeyLists(s, i).rs[|T(s, i).arr| - 1] == key ==>
      Find(s, i, key) == AtArray(|T(s, i).arr| - 1)
    ensures |T(s, i).tab| > 0 && KeyLists(s, i).ts[|T(s, i).tab| - 1] == key ==>
      Find(s, i, key) == AtTable(|T(s, i).tab| - 1)
  {
    KeyLists(s, i).FoundThere();
  }

  lemma AssignedTable(s: Store, i: nat, key: Key, v: Inline, s': Store, vt: seq<byte> -> nat)
    requires Ok(s, vt) && i < |s.tabs| && key !in Keys(s, i) && v.Entries?
    requires var s1 := AddTable(s, i, key, false);
      Changed(s1, s', |s.tabs|, -1, vt) && Filled(s', |s.tabs|, v, |v.entries|)
    ensures Assigned(s, s', i, key, v, vt)
  {
    var s1 := AddTable(s, i, key, false);
    AddTableKeeps(s, i, key, false, vt);
    ChangedNew(s, s1, s', i, |s.tabs|, -1, vt);
    SameLists(s1, s', i, vt);
    TableEntry(s', i, key, |s.tabs|, v);
  }

  /** A table that did not change has the keys it had. */
  lemma SameLists(s: Store, s': Store, i: nat, vt: seq<byte> -> nat)
    requires Ok(s, vt) && Ok(s', vt) && Extends(s, s') && i < |s.tabs| && T(s', i) == T(s, i)
    ensures KeyLists(s', i) == KeyLists(s, i) && Distinct(Keys(s', i))
  {
    assert TabOk(s, i) && TabOk(s', i);
    TabStillOk(s, s', i);
  }

  lemma NewTabFilled(s: Store, i: nat, v: Inline)
    requires v.Entries? && i < |s.tabs| && Empty(T(s, i))
    ensures Filled(s, i, v, 0)
  {
    assert Keys(s, i) == [];
  }

  /** An empty table takes entries exactly as long as they fit, and then holds those. */
  lemma {:induction false} FillNewTable(s: Store, i: nat, v: Inline, n: nat, vt: seq<byte> -> nat)
    requires Ok(s, vt) && v.Entries? && n <= |v.entries| && Filled(s, i, v, 0)
    ensures FillTable(s, i, v, n, vt).Some? <==> EntriesFit(v, n, vt)
    ensures FillTable(s, i, v, n, vt).Some? ==>
      var s' := FillTable(s, i, v, n, vt).value; Changed(s, s', i, -1, vt) && Filled(s', i, v, n)
    decreases v, 1, n
  {
    if n == 0 {
      ChangedNothing(s, i, -1, vt);
    } else {
      FillNewTable(s, i, v, n - 1, vt);
      FillNext(s, i, v, n - 1, vt);
    }
  }

  lemma FillNext(s: Store, i: nat, v: Inline, n: nat, vt: seq<byte> -> nat)
    requires Ok(s, vt) && v.Entries? && n < |v.entries|
    requires FillTable(s, i, v, n, vt).Some? <==> EntriesFit(v, n, vt)
    requires FillTable(s, i, v, n, vt).Some? ==>
      var s' := FillTable(s, i, v, n, vt).value; Changed(s, s', i, -1, vt) && Filled(s', i, v, n)
    ensures FillTable(s, i, v, n + 1, vt).Some? <==> EntriesFit(v, n + 1, vt)
    ensures FillTable(s, i, v, n + 1, vt).Some? ==>
      var s' := FillTable(s, i, v, n + 1, vt).value; Changed(s, s', i, -1, vt) && Filled(s', i, v, n + 1)
    decreases v, 0, 1
  {
    EntriesFitNext(v, n, vt);
    if FillTable(s, i, v, n, vt).Some? {
      FillOneMore(s, FillTable(s, i, v, n, vt).value, i, v, n, vt);
    }
  }

  lemma EntriesFitNext(v: Inline, n: nat, vt: seq<byte> -> nat)
    requires v.Entries? && n < |v.entries|
    ensures EntriesFit(v, n + 1, vt) <==> EntriesFit(v, n, vt) && EntryFits(v, n, vt)
  {
  }

  lemma FilledHolds(s: Store, i: nat, v: Inline)
    requires v.Entries? && Filled(s, i, v, |v.entries|)
    ensures HoldsTable(s, i, v, true)
  {
  }

  /** One more entry, after `n` entries have turned `s` into `s1`. */
  lemma FillOneMore(s: Store, s1: Store, i: nat, v: Inline, n: nat, vt: seq<byte> -> nat)
    requires Changed(s, s1, i, -1, vt) && v.Entries? && n < |v.entries| && Filled(s1, i, v, n)
    ensures var r := Assign(s1, i, v.entries[n].key, v.entries[n].val, vt);
      && (r.Some? <==> EntryFits(v, n, vt))
      && (r.Some? ==> Changed(s, r.value, i, -1, vt) && Filled(r.value, i, v, n + 1))
    decreases v, 0, 0
  {
    var e := v.entries[n];
    NewKeyAbsent(Keys(s1, i), v.entries, n);
    if NewKey(v.entries, n) {
      AssignNew(s1, i, e.key, e.val, vt);
      if Assign(s1, i, e.key, e.val, vt).Some? {
        var s2 := Assign(s1, i, e.key, e.val, vt).value;
        FilledNext(s1, i, v, n, s2, vt);
        ChangedTwice(s, s1, s2, i, -1, vt);
      }
    } else {
      NotAgain(s1, i, e.key, e.val, vt);
    }
  }

  /** A key that is taken is refused, unless it names an implicit table. */
  lemma NotAgain(s: Store, i: nat, key: Key, v: Inline, vt: seq<byte> -> nat)
    requires Ok(s, vt) && i < |s.tabs| && key in Keys(s, i) && AllExplicit(s, i)
    ensures Assign(s, i, key, v, vt).None?
  {
    assert TabOk(s, i);
    if Find(s, i, key).AtTable? {
      assert !T(s, T(s, i).tab[Find(s, i, key).i]).implicit;
    }
  }

  lemma FilledNext(s: Store, i: nat, v: Inline, n: nat, s': Store, vt: seq<byte> -> nat)
    requires Ok(s, vt) && v.Entries? && n < |v.entries| && Filled(s, i, v, n)
    requires Assigned(s, s', i, v.entries[n].key, v.entries[n].val, vt)
    ensures Filled(s', i, v, n + 1)
  {
    OneMoreKey(KeyLists(s, i), KeyLists(s', i), v.entries[n].key);
    KeysAreNext(Keys(s, i), Keys(s', i), v.entries, n);
    forall k | 0 <= k < n + 1 ensures HoldsEntry(s', i, v.entries[k].key, v.entries[k].val, true) {
      if k < n {
        EntryKept(s, s', i, v.entries[k].key, v.entries[k].val, vt);
      }
    }
  }

  /** The array has the first `n` elements of `v` and nothing else. */
  ghost predicate ArrayFilled(s: Store, b: nat, v: Inline, n: nat, vt: seq<byte> -> nat)
    requires v.Items? && n <= |v.items|
  {
    && b < |s.arrs| && Count(A(s, b)) == n
    && (if n == 0 then A(s, b).kind == Unknown else TakesLike(A(s, b), v.items[0], vt))
    && forall k {:trigger HoldsItem(s, b, k, v.items[k], true)} :: 0 <= k < n ==>
         HoldsItem(s, b, k, v.items[k], true)
  }

  ghost predicate TakesLike(a: ArrRec, v: Inline, vt: seq<byte> -> nat) {
    forall w :: Takes(a, w, vt) <==> Alike(w, v, vt)
  }

  /** A new array takes elements exactly as long as they are alike and loadable, and then holds those. */
  lemma {:induction false} FillNewArray(s: Store, b: nat, v: Inline, n: nat, vt: seq<byte> -> nat)
    requires Ok(s, vt) && v.Items? && n <= |v.items|
    requires b < |s.arrs| && A(s, b) == NewArr(A(s, b).key, A(s, b).level)
    ensures FillArray(s, b, v, n, vt).Some? <==> ItemsFit(v, n, vt)
    ensures FillArray(s, b, v, n, vt).Some? ==>
      var s' := FillArray(s, b, v, n, vt).value; Changed(s, s', -1, b, vt) && ArrayFilled(s', b, v, n, vt)
    decreases v, 0, n
  {
    if n == 0 {
      ChangedNothing(s, -1, b, vt);
    } else {
      FillNewArray(s, b, v, n - 1, vt);
      if FillArray(s, b, v, n - 1, vt).Some? {
        var s1 := FillArray(s, b, v, n - 1, vt).value;
        AddOneMore(s1, b, v, n - 1, vt);
        if FillArray(s, b, v, n, vt).Some? {
          ChangedTwice(s, s1, FillArray(s, b, v, n, vt).value, -1, b, vt);
        }
      }
      ItemsFitNext(v, n - 1, vt);
    }
  }

  lemma ItemsFitNext(v: Inline, n: nat, vt: seq<byte> -> nat)
    requires v.Items? && n < |v.items|
    ensures ItemsFit(v, n + 1, vt) <==> ItemsFit(v, n, vt) && ItemFits(v, n, vt)
  {
  }

  lemma AddOneMore(s: Store, b: nat, v: Inline, n: nat, vt: seq<byte> -> nat)
    requires Ok(s, vt) && v.Items? && n < |v.items| && ArrayFilled(s, b, v, n, vt)
    ensures var r := AddItem(s, b, v.items[n], vt);
      && (r.Some? <==> ItemFits(v, n, vt))
      && (r.Some? ==> Changed(s, r.value, -1, b, vt) && ArrayFilled(r.value, b, v, n + 1, vt))
    decreases v, 0, n
  {
    AddItemExactly(s, b, v.items[n], vt);
    if AddItem(s, b, v.items[n], vt).Some? {
      ArrayFilledNext(s, b, v, n, AddItem(s, b, v.items[n], vt).value, vt);
    }
  }

  /** What one more element does to an array. */
  ghost predicate Added(s: Store, s': Store, b: nat, v: Inline, vt: seq<byte> -> nat) {
    && Changed(s, s', -1, b, vt)
    && Count(A(s', b)) == Count(A(s, b)) + 1 && TakesLike(A(s', b), v, vt)
    && HoldsItem(s', b, Count(A(s, b)), v, true)
  }

  lemma ArrayFilledNext(s: Store, b: nat, v: Inline, n: nat, s': Store, vt: seq<byte> -> nat)
    requires Ok(s, vt) && v.Items? && n < |v.items| && ArrayFilled(s, b, v, n, vt)
    requires Added(s, s', b, v.items[n], vt) && Takes(A(s, b), v.items[n], vt)
    ensures ArrayFilled(s', b, v, n + 1, vt)
  {
    forall k | 0 <= k < n + 1 ensures HoldsItem(s', b, k, v.items[k], true) {
      if k < n {
        ItemKept(s, s', b, k, v.items[k], vt);
      }
    }
  }

  lemma {:induction false} AddItemExactly(s: Store, b: nat, v: Inline, vt: seq<byte> -> nat)
    requires Ok(s, vt) && b < |s.arrs|
    ensures AddItem(s, b, v, vt).Some? <==> Takes(A(s, b), v, vt) && Loadable(v, vt)
    ensures AddItem(s, b, v, vt).Some? ==> Added(s, AddItem(s, b, v, vt).value, b, v, vt)
    decreases v, 2, 0
  {
    if Takes(A(s, b), v, vt) {
      assert ArrOk(s, b, vt);
      match v
      case Raw(text) =>
        PushValueKeeps(s, b, text, vt);
      case Items(_) =>
        var s1 := PushArray(s, b);
        PushArrayKeeps(s, b, vt);
        FillNewArray(s1, |s.arrs|, v, |v.items|, vt);
        if AddItem(s, b, v, vt).Some? {
          AddedArray(s, b, v, AddItem(s, b, v, vt).value, vt);
        }
      case Entries(_) =>
        var s1 := PushTable(s, b, NO_KEY);
        PushTableKeeps(s, b, NO_KEY, vt);
        NewTabFilled(s1, |s.tabs|, v);
        FillNewTable(s1, |s.tabs|, v, |v.entries|, vt);
        if AddItem(s, b, v, vt).Some? {
          AddedTable(s, b, v, AddItem(s, b, v, vt).value, vt);
        }
    }
  }

  lemma AddedArray(s: Store, b: nat, v: Inline, s': Store, vt: seq<byte> -> nat)
    requires Ok(s, vt) && b < |s.arrs| && v.Items? && Takes(A(s, b), v, vt)
    requires var s1 := PushArray(s, b);
      Changed(s1, s', -1, |s.arrs|, vt) && ArrayFilled(s', |s.arrs|, v, |v.items|, vt)
    ensures Added(s, s', b, v, vt)
  {
    assert ArrOk(s, b, vt);
    PushArrayKeeps(s, b, vt);
    ExtendsTwice(s, PushArray(s, b), s');
  }

  lemma AddedTable(s: Store, b: nat, v: Inline, s': Store, vt: seq<byte> -> nat)
    requires Ok(s, vt) && b < |s.arrs| && v.Entries? && Takes(A(s, b), v, vt)
    requires var s1 := PushTable(s, b, NO_KEY);
      Changed(s1, s', |s.tabs|, -1, vt) && Filled(s', |s.tabs|, v, |v.entries|)
    ensures Added(s, s', b, v, vt)
  {
    assert ArrOk(s, b, vt);
    PushTableKeeps(s, b, NO_KEY, vt);
    ExtendsTwice(s, PushTable(s, b, NO_KEY), s');
    FilledHolds(s', |s.tabs|, v);
  }

  // ---- Assignments to any key ------------------------------------------------------------------------

  /** What every accepted assignment does: nothing that was there is gone, and no array is touched. */
  ghost predicate Stored(s: Store, s': Store, vt: seq<byte> -> nat) {
    && Ok(s', vt) && Extends(s, s') && s'.cur == s.cur
    && (forall b {:trigger A(s', b)} :: 0 <= b < |s.arrs| ==> A(s', b) == A(s, b))
  }

  lemma StoredNothing(s: Store, vt: seq<byte> -> nat)
    requires Ok(s, vt)
    ensures Stored(s, s, vt)
  {
  }

  lemma StoredTwice(s: Store, s1: Store, s2: Store, vt: seq<byte> -> nat)
    requires Stored(s, s1, vt) && Stored(s1, s2, vt)
    ensures Stored(s, s2, vt)
  {
    ExtendsTwice(s, s1, s2);
    assert forall b :: 0 <= b < |s.arrs| ==> A(s1, b) == A(s, b) && A(s2, b) == A(s1, b);
  }

  /** An accepted assignment is held, be its key new or that of an implicit table. */
  lemma {:induction false} AssignKeeps(s: Store, i: nat, key: Key, v: Inline, vt: seq<byte> -> nat)
    requires Ok(s, vt) && i < |s.tabs| && Assign(s, i, key, v, vt).Some?
    ensures var s' := Assign(s, i, key, v, vt).value; Stored(s, s', vt) && HoldsEntry(s', i, key, v, false)
    ensures key in Keys(s, i) ==> v.Entries? && Selectable(s, i, key, false)
    decreases v, 1, 0
  {
    if key !in Keys(s, i) {
      AssignNew(s, i, key, v, vt);
      EntryWeaker(Assign(s, i, key, v, vt).value, i, key, v);
    } else {
      var (s1, n) := KeyTable(s, i, key).value;
      KeyTableKeeps(s, i, key, vt);
      FillKeeps(s1, n, v, |v.entries|, vt);
      var s' := Assign(s, i, key, v, vt).value;
      StoredTwice(s, s1, s', vt);
      PromotedHeld(s, i, key, v, s1, n, s', vt);
    }
  }

  lemma PromotedHeld(s: Store, i: nat, key: Key, v: Inline, s1: Store, n: nat, s': Store, vt: seq<byte> -> nat)
    requires Ok(s, vt) && i < |s.tabs| && Find(s, i, key).AtTable? && KeyTable(s, i, key) == Some((s1, n)) && v.Entries?
    requires Ok(s', vt) && Extends(s, s') && HoldsTable(s', n, v, false)
    ensures HoldsEntry(s', i, key, v, false)
  {
    assert TabOk(s, i) && TabOk(s', i) && TabGrows(T(s, i), T(s', i));
    FoundAgain(s, s', i, key);
  }

  /** The first `n` entries of `v` are held. */
  ghost predicate Held(s: Store, i: nat, v: Inline, n: nat)
    requires v.Entries? && n <= |v.entries|
  {
    forall k {:trigger HoldsEntry(s, i, v.entries[k].key, v.entries[k].val, false)} :: 0 <= k < n ==>
      HoldsEntry(s, i, v.entries[k].key, v.entries[k].val, false)
  }

  lemma HeldNext(s: Store, s': Store, i: nat, v: Inline, n: nat, vt: seq<byte> -> nat)
    requires v.Entries? && n < |v.entries| && Ok(s, vt) && Stored(s, s', vt) && Held(s, i, v, n)
    requires HoldsEntry(s', i, v.entries[n].key, v.entries[n].val, false)
    ensures Held(s', i, v, n + 1)
  {
    forall k | 0 <= k < n + 1 ensures HoldsEntry(s', i, v.entries[k].key, v.entries[k].val, false) {
      if k < n {
        EntryGrows(s, s', i, v.entries[k].key, v.entries[k].val, vt);
      }
    }
  }

  lemma {:induction false} FillKeeps(s: Store, i: nat, v: Inline, n: nat, vt: seq<byte> -> nat)
    requires Ok(s, vt) && i < |s.tabs| && v.Entries? && n <= |v.entries| && FillTable(s, i, v, n, vt).Some?
    ensures var s' := FillTable(s, i, v, n, vt).value; Stored(s, s', vt) && Held(s', i, v, n)
    decreases v, 0, n
  {
    if n == 0 {
      StoredNothing(s, vt);
    } else {
      FillKeeps(s, i, v, n - 1, vt);
      FillStep(s, FillTable(s, i, v, n - 1, vt).value, i, v, n - 1, vt);
    }
  }

  lemma FillStep(s: Store, s1: Store, i: nat, v: Inline, n: nat, vt: seq<byte> -> nat)
    requires i < |s.tabs| && Stored(s, s1, vt) && v.Entries? && n < |v.entries| && Held(s1, i, v, n)
    requires Assign(s1, i, v.entries[n].key, v.entries[n].val, vt).Some?
    ensures var s' := Assign(s1, i, v.entries[n].key, v.entries[n].val, vt).value;
      Stored(s, s', vt) && Held(s', i, v, n + 1)
    decreases v, 0, n
  {
    var e := v.entries[n];
    var s' := Assign(s1, i, e.key, e.val, vt).value;
    AssignKeeps(s1, i, e.key, e.val, vt);
    StoredTwice(s, s1, s', vt);
    HeldNext(s1, s', i, v, n, vt);
  }
}
