/** Structural equality of trees, and deep copies. */
module TreeEquality {
  import opened Bytes
  import opened Members
  import opened Values
  import opened ObjectTable

  /** The comparison of numbers, with its tolerance. */
  predicate NumbersEqual(x: int, y: int) {
    var d := (x - y) as real;
    (if d < 0.0 then -d else d) < 0.000001
  }

  /** The comparison as it runs: object members of the first tree are looked up in the second. */
  predicate Equals(a: Value, b: Value)
    decreases a
  {
    match a
    case Array(xs) => b.Array? && |xs| == |b.items| && forall i :: 0 <= i < |xs| ==> Equals(xs[i], b.items[i])
    case Object(ms) =>
      && b.Object? && |ms| == |b.members|
      && forall i :: 0 <= i < |ms| ==> SameAt(ms, b.members, i)
    case String(s) => b.String? && |s| == |b.s| && s == b.s
    case Bool(x) => b.Bool? && x == b.b
    case Number(x) => b.Number? && NumbersEqual(x, b.n)
    case Null => b.Null?
  }

  /** The values of the `i`-th key on both sides; a missing value has no type and equals none. */
  predicate SameAt(ms: seq<Member<Value>>, ns: seq<Member<Value>>, i: nat)
    requires i < |ms|
    decreases ms
  {
    var k := ms[i].key;
    match IndexOf(ns, k)
    case None => false
    case Some(j) => Equals(ms[IndexOf(ms, k).value].value, ns[j].value)
  }

  // ---- What equality means --------------------------------------------------------------

  /** A tree with its objects read as unordered maps. */
  datatype Canon =
    | CNull
    | CBool(b: bool)
    | CNumber(n: int)
    | CBytes(s: seq<byte>)
    | CArray(items: seq<Canon>)
    | CObject(members: map<CString, Canon>)

  function CanonOf(v: Value): Canon {
    match v
    case Null => CNull
    case Bool(b) => CBool(b)
    case Number(n) => CNumber(n)
    case String(s) => CBytes(s)
    case Array(items) => CArray(seq(|items|, i requires 0 <= i < |items| => CanonOf(items[i])))
    case Object(ms) => CObject(CanonMembers(ms))
  }

  function CanonMembers(ms: seq<Member<Value>>): map<CString, Canon> {
    if |ms| == 0 then map[]
    else CanonMembers(ms[..|ms| - 1])[ms[|ms| - 1].key := CanonOf(ms[|ms| - 1].value)]
  }

  lemma {:induction false} CanonLookup(ms: seq<Member<Value>>, k: CString)
    ensures k in CanonMembers(ms) <==> HasKey(ms, k)
    ensures HasKey(ms, k) ==> CanonMembers(ms)[k] == CanonOf(ms[IndexOf(ms, k).value].value)
  {
    if |ms| > 0 {
      CanonLookup(ms[..|ms| - 1], k);
    }
  }

  lemma {:induction false} CanonSize(ms: seq<Member<Value>>)
    requires Unique(ms)
    ensures |CanonMembers(ms)| == |ms|
  {
    if |ms| > 0 {
      var n := |ms| - 1;
      CanonSize(ms[..n]);
      CanonLookup(ms[..n], ms[n].key);
      assert CanonMembers(ms).Keys == CanonMembers(ms[..n]).Keys + {ms[n].key};
    }
  }

  lemma SameSizeSubset<T>(a: set<T>, b: set<T>)
    requires a <= b && |a| == |b|
    ensures a == b
  {
    assert b == a + (b - a);
    assert |b| == |a| + |b - a|;
  }

  lemma NumbersEqualIsEquality(x: int, y: int)
    ensures NumbersEqual(x, y) <==> x == y
  {
  }

  /** Equality holds exactly for trees that are the same with objects read as maps. */
  lemma {:induction false} EqualsExactly(a: Value, b: Value)
    requires WellFormed(a) && WellFormed(b)
    ensures Equals(a, b) <==> CanonOf(a) == CanonOf(b)
    decreases a
  {
    match a
    case Array(xs) =>
      if b.Array? && |xs| == |b.items| {
        forall i | 0 <= i < |xs| ensures Equals(xs[i], b.items[i]) <==> CanonOf(xs[i]) == CanonOf(b.items[i]) {
          EqualsExactly(xs[i], b.items[i]);
        }
        ArraysAgree(xs, b.items);
      } else if b.Array? {
        assert |CanonOf(a).items| != |CanonOf(b).items|;
      }
    case Object(ms) =>
      if b.Object? {
        forall i | 0 <= i < |ms| ensures SameAt(ms, b.members, i) <==> CanonAgrees(ms, b.members, ms[i].key) {
          SameAtExactly(ms, b.members, i);
        }
        ObjectsAgree(ms, b.members);
      }
    case Number(n) =>
      if b.Number? { NumbersEqualIsEquality(n, b.n); }
    case _ =>
  }

  lemma ArraysAgree(xs: seq<Value>, ys: seq<Value>)
    requires |xs| == |ys|
    ensures CanonOf(Array(xs)) == CanonOf(Array(ys)) <==> forall i :: 0 <= i < |xs| ==> CanonOf(xs[i]) == CanonOf(ys[i])
  {
    var cx, cy := CanonOf(Array(xs)).items, CanonOf(Array(ys)).items;
    assert forall i :: 0 <= i < |xs| ==> cx[i] == CanonOf(xs[i]) && cy[i] == CanonOf(ys[i]);
  }

  /** Both objects have the key, with the same meaning. */
  ghost predicate CanonAgrees(ms: seq<Member<Value>>, ns: seq<Member<Value>>, k: CString) {
    k in CanonMembers(ms) && k in CanonMembers(ns) && CanonMembers(ms)[k] == CanonMembers(ns)[k]
  }

  lemma SameAtExactly(ms: seq<Member<Value>>, ns: seq<Member<Value>>, i: nat)
    requires i < |ms| && WellFormed(Object(ms)) && WellFormed(Object(ns))
    ensures SameAt(ms, ns, i) <==> CanonAgrees(ms, ns, ms[i].key)
    decreases ms
  {
    var k := ms[i].key;
    CanonLookup(ms, k);
    CanonLookup(ns, k);
    if HasKey(ns, k) {
      EqualsExactly(ms[IndexOf(ms, k).value].value, ns[IndexOf(ns, k).value].value);
    }
  }

  /** Counting: as many keys on both sides, each with a partner, leaves none without one. */
  lemma SubmapOfSameSize<K, V>(a: map<K, V>, b: map<K, V>)
    requires |a| == |b| && forall k :: k in a ==> k in b && a[k] == b[k]
    ensures a == b
  {
    assert a.Keys <= b.Keys && |a.Keys| == |b.Keys|;
    SameSizeSubset(a.Keys, b.Keys);
    assert forall k :: k in b ==> k in a.Keys;
  }

  lemma AgreeOnAllKeys(ms: seq<Member<Value>>, ns: seq<Member<Value>>, k: CString)
    requires forall i :: 0 <= i < |ms| ==> CanonAgrees(ms, ns, ms[i].key)
    requires k in CanonMembers(ms)
    ensures k in CanonMembers(ns) && CanonMembers(ms)[k] == CanonMembers(ns)[k]
  {
    CanonLookup(ms, k);
    var i :| 0 <= i < |ms| && ms[i].key == k;
    assert CanonAgrees(ms, ns, ms[i].key);
  }

  lemma KeysHaveMeaning(ms: seq<Member<Value>>, i: nat)
    requires i < |ms|
    ensures ms[i].key in CanonMembers(ms)
  {
    CanonLookup(ms, ms[i].key);
  }

  lemma ObjectsAgree(ms: seq<Member<Value>>, ns: seq<Member<Value>>)
    requires Unique(ms) && Unique(ns)
    ensures CanonMembers(ms) == CanonMembers(ns) <==>
      |ms| == |ns| && forall i :: 0 <= i < |ms| ==> CanonAgrees(ms, ns, ms[i].key)
  {
    var a, b := CanonMembers(ms), CanonMembers(ns);
    CanonSize(ms);
    CanonSize(ns);
    if a == b {
      forall i | 0 <= i < |ms| ensures CanonAgrees(ms, ns, ms[i].key) {
        KeysHaveMeaning(ms, i);
      }
    } else if |ms| == |ns| && forall i :: 0 <= i < |ms| ==> CanonAgrees(ms, ns, ms[i].key) {
      forall k | k in a ensures k in b && a[k] == b[k] {
        AgreeOnAllKeys(ms, ns, k);
      }
      SubmapOfSameSize(a, b);
    }
  }

  /** Hence it is an equivalence. */
  lemma EqualsEquivalence(a: Value, b: Value, c: Value)
    requires WellFormed(a) && WellFormed(b) && WellFormed(c)
    ensures Equals(a, a)
    ensures Equals(a, b) ==> Equals(b, a)
    ensures Equals(a, b) && Equals(b, c) ==> Equals(a, c)
  {
    EqualsExactly(a, a);
    EqualsExactly(a, b);
    EqualsExactly(b, a);
    EqualsExactly(b, c);
    EqualsExactly(a, c);
  }

  // ---- Deep copies ---------------------------------------------------------------------------

  /** The copy is the same tree, member order included, for every hash function. */
  method DeepCopy(v: Value, hash: CString -> nat) returns (r: Value)
    requires WellFormed(v)
    ensures r == v
    decreases v, 1
  {
    match v
    case Array(items) =>
      var copies: seq<Value> := [];
      var i := 0;
      while i < |items|
        invariant 0 <= i <= |items| && copies == items[..i]
      {
        var c := DeepCopy(items[i], hash);
        copies := copies + [c];
        i := i + 1;
      }
      r := Array(copies);
    case Object(ms) =>
      r := DeepCopyObject(ms, hash);
    case _ =>
      r := v;
  }

  lemma NextIsNew(ms: seq<Member<Value>>, i: nat)
    requires Unique(ms) && i < |ms|
    ensures Add(ms[..i], ms[i].key, ms[i].value) == Some(ms[..i + 1])
  {
    assert ms[..i] + [ms[i]] == ms[..i + 1];
  }

  method CopyMember(ms: seq<Member<Value>>, i: nat, table: Table<Value>)
    requires Unique(ms) && i < |ms| && WellFormed(ms[i].value)
    requires table.Valid() && table.Items() == ms[..i]
    modifies table.Repr()
    ensures table.Valid() && fresh(table.Repr() - old(table.Repr()))
    ensures table.Items() == ms[..i + 1]
    decreases ms, 0
  {
    LookupUnique(ms, i);
    NextIsNew(ms, i);
    var j := IndexOf(ms, ms[i].key).value;
    var c := DeepCopy(ms[j].value, table.hash);
    var ok := table.Add(ms[i].key, c);
  }

  method DeepCopyObject(ms: seq<Member<Value>>, hash: CString -> nat) returns (r: Value)
    requires WellFormed(Object(ms))
    ensures r == Object(ms)
    decreases ms, 2
  {
    var table := new Table<Value>(hash, 0);
    CopyMembers(ms, table);
    var members := table.ToMembers();
    return Object(members);
  }

  method CopyMembers(ms: seq<Member<Value>>, table: Table<Value>)
    requires WellFormed(Object(ms)) && table.Valid() && table.Items() == []
    modifies table.Repr()
    ensures table.Valid() && fresh(table.Repr() - old(table.Repr())) && table.Items() == ms
    decreases ms, 1
  {
    var i := 0;
    while i < |ms|
      invariant 0 <= i <= |ms| && table.Valid() && fresh(table.Repr() - old(table.Repr()))
      invariant table.Items() == ms[..i]
    {
      CopyMember(ms, i, table);
      i := i + 1;
    }
    assert ms[..i] == ms;
  }
}
