/**
 * The reading of a JSON object that its users rely on: an insertion-ordered list of
 * members with pairwise distinct keys.  The hash table of `ObjectTable` is proved to
 * refine these operations, and the tree operations are stated over them.
 */
module Members {
  import opened Bytes

  datatype Member<+V> = Member(key: CString, value: V)

  ghost predicate Unique<V>(ms: seq<Member<V>>) {
    forall i, j :: 0 <= i < j < |ms| ==> ms[i].key != ms[j].key
  }

  predicate HasKey<V>(ms: seq<Member<V>>, k: CString) {
    exists i :: 0 <= i < |ms| && ms[i].key == k
  }

  function IndexOf<V>(ms: seq<Member<V>>, k: CString): (r: Option<nat>)
    ensures r.Some? <==> HasKey(ms, k)
    ensures r.Some? ==> r.value < |ms| && ms[r.value].key == k
  {
    if |ms| == 0 then None
    else if ms[|ms| - 1].key == k then Some(|ms| - 1)
    else IndexOf(ms[..|ms| - 1], k)
  }

  function Lookup<V>(ms: seq<Member<V>>, k: CString): (r: Option<V>)
    ensures r.Some? <==> HasKey(ms, k)
    ensures r.Some? ==> Member(k, r.value) in ms
  {
    match IndexOf(ms, k)
    case None => None
    case Some(i) => Some(ms[i].value)
  }

  /** Appending a new key; `None` when the key is already there. */
  function Add<V>(ms: seq<Member<V>>, k: CString, v: V): (r: Option<seq<Member<V>>>)
    ensures r.Some? <==> !HasKey(ms, k)
    ensures r.Some? && Unique(ms) ==> Unique(r.value)
  {
    if HasKey(ms, k) then None else Some(ms + [Member(k, v)])
  }

  /** `r` has every member of `ms` at its place, the one of the key with its new value; a new key stands at the end. */
  ghost predicate SetInPlace<V>(ms: seq<Member<V>>, k: CString, v: V, r: seq<Member<V>>) {
    if HasKey(ms, k) then
      && |r| == |ms|
      && forall j :: 0 <= j < |ms| ==> r[j] == if ms[j].key == k then Member(k, v) else ms[j]
    else r == ms + [Member(k, v)]
  }

  /** `r` has every member of `ms` but that of the key; the last one fills the gap, the others keep their places. */
  ghost predicate GapFilled<V>(ms: seq<Member<V>>, k: CString, r: seq<Member<V>>) {
    && |r| + 1 == |ms|
    && forall j :: 0 <= j < |r| ==> r[j] == if ms[j].key == k then ms[|r|] else ms[j]
  }

  /** Replacing the value of a key in place, or appending the key. */
  function Put<V>(ms: seq<Member<V>>, k: CString, v: V): (r: seq<Member<V>>)
    ensures Unique(ms) ==> Unique(r)
  {
    match IndexOf(ms, k)
    case None => ms + [Member(k, v)]
    case Some(i) => ms[i := Member(k, v)]
  }

  /** The last element takes the place of the one at `i`. */
  function SwapRemove<T>(s: seq<T>, i: nat): (r: seq<T>)
    requires i < |s|
    ensures |r| == |s| - 1
  {
    s[i := s[|s| - 1]][..|s| - 1]
  }

  function Remove<V>(ms: seq<Member<V>>, k: CString): (r: Option<seq<Member<V>>>)
    ensures r.Some? <==> HasKey(ms, k)
    ensures r.Some? && Unique(ms) ==> Unique(r.value)
  {
    match IndexOf(ms, k)
    case None => None
    case Some(i) => Some(SwapRemove(ms, i))
  }

  lemma LookupUnique<V>(ms: seq<Member<V>>, i: nat)
    requires Unique(ms) && i < |ms|
    ensures IndexOf(ms, ms[i].key) == Some(i)
    ensures Lookup(ms, ms[i].key) == Some(ms[i].value)
  {
    var r := IndexOf(ms, ms[i].key).value;
    assert ms[r].key == ms[i].key;
  }

  /** Nothing else can be the result of a set: each member is determined, index by index. */
  lemma PutExactly<V>(ms: seq<Member<V>>, k: CString, v: V, r: seq<Member<V>>)
    requires Unique(ms)
    ensures Put(ms, k, v) == r <==> SetInPlace(ms, k, v, r)
  {
    if HasKey(ms, k) {
      var i := IndexOf(ms, k).value;
      assert SetInPlace(ms, k, v, r) <==> r == ms[i := Member(k, v)];
    }
  }

  /** The same for a removal. */
  lemma RemoveExactly<V>(ms: seq<Member<V>>, k: CString, r: seq<Member<V>>)
    requires Unique(ms) && HasKey(ms, k)
    ensures Remove(ms, k) == Some(r) <==> GapFilled(ms, k, r)
  {
    var n := |ms| - 1;
    var x := Remove(ms, k).value;
    assert forall j :: 0 <= j < n ==> x[j] == if ms[j].key == k then ms[n] else ms[j];
    if GapFilled(ms, k, r) {
      assert forall j :: 0 <= j < n ==> r[j] == x[j];
      assert r == x;
    }
  }

  /** Lookup after `Put`: the new value at the key, everything else as before. */
  lemma LookupPut<V>(ms: seq<Member<V>>, k: CString, v: V, q: CString)
    requires Unique(ms)
    ensures Lookup(Put(ms, k, v), q) == if q == k then Some(v) else Lookup(ms, q)
  {
    var r := Put(ms, k, v);
    if q == k {
      var i := if HasKey(ms, k) then IndexOf(ms, k).value else |ms|;
      assert r[i] == Member(k, v);
      LookupUnique(r, i);
    } else if HasKey(ms, q) {
      var i := IndexOf(ms, q).value;
      assert r[i] == ms[i];
      LookupUnique(r, i);
      LookupUnique(ms, i);
    } else {
      assert forall i :: 0 <= i < |r| ==> r[i].key == k || r[i] == ms[i];
    }
  }

  /** Lookup after `Add`. */
  lemma LookupAdd<V>(ms: seq<Member<V>>, k: CString, v: V, q: CString)
    requires Unique(ms) && !HasKey(ms, k)
    ensures Lookup(Add(ms, k, v).value, q) == if q == k then Some(v) else Lookup(ms, q)
  {
    LookupPut(ms, k, v, q);
  }

  /** Lookup after `Remove`: the key is gone, everything else as before. */
  lemma LookupRemove<V>(ms: seq<Member<V>>, k: CString, q: CString)
    requires Unique(ms) && HasKey(ms, k)
    ensures Lookup(Remove(ms, k).value, q) == if q == k then None else Lookup(ms, q)
  {
    var x := IndexOf(ms, k).value;
    var r := Remove(ms, k).value;
    if q == k {
      assert forall i :: 0 <= i < |r| ==> r[i] == if i == x then ms[|ms| - 1] else ms[i];
    } else if HasKey(ms, q) {
      var i := IndexOf(ms, q).value;
      var j := if i == |ms| - 1 then x else i;
      assert r[j] == ms[i];
      LookupUnique(r, j);
      LookupUnique(ms, i);
    } else {
      assert forall i :: 0 <= i < |r| ==> r[i] == if i == x then ms[|ms| - 1] else ms[i];
    }
  }
}
