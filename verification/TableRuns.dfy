/** Whole runs of table operations: the table, the member list and a plain map agree. */
module TableRuns {
  import opened Bytes
  import opened Members
  import opened ObjectTable

  datatype Op<+V> = AddOp(key: CString, value: V) | SetOp(key: CString, value: V) | RemoveOp(key: CString) | ClearOp

  /** What one operation does to the member list, and whether it reports success. */
  function Apply<V>(ms: seq<Member<V>>, op: Op<V>): (r: (seq<Member<V>>, bool))
    ensures Unique(ms) ==> Unique(r.0)
    ensures !r.1 ==> r.0 == ms
  {
    match op
    case AddOp(k, v) => if Add(ms, k, v).Some? then (Add(ms, k, v).value, true) else (ms, false)
    case SetOp(k, v) => (Put(ms, k, v), true)
    case RemoveOp(k) => if Remove(ms, k).Some? then (Remove(ms, k).value, true) else (ms, false)
    case ClearOp => ([], true)
  }

  /** The member list after a run, and what each operation of the run reported. */
  ghost function ListAfter<V>(ms: seq<Member<V>>, ops: seq<Op<V>>): (r: (seq<Member<V>>, seq<bool>))
    ensures Unique(ms) ==> Unique(r.0)
    ensures |r.1| == |ops|
    decreases |ops|
  {
    if |ops| == 0 then (ms, [])
    else
      var (ms', ok) := Apply(ms, ops[0]);
      var (final, oks) := ListAfter(ms', ops[1..]);
      (final, [ok] + oks)
  }

  /** The same run on a plain map. */
  ghost function MapAfter<V>(m: map<CString, V>, ops: seq<Op<V>>): map<CString, V>
    decreases |ops|
  {
    if |ops| == 0 then m else MapAfter(MapStep(m, ops[0]), ops[1..])
  }

  ghost function MapStep<V>(m: map<CString, V>, op: Op<V>): map<CString, V> {
    match op
    case AddOp(k, v) => if k in m then m else m[k := v]
    case SetOp(k, v) => m[k := v]
    case RemoveOp(k) => m - {k}
    case ClearOp => map[]
  }

  ghost predicate Answers<V>(ms: seq<Member<V>>, m: map<CString, V>) {
    forall k: CString :: Lookup(ms, k) == if k in m then Some(m[k]) else None
  }

  lemma StepAnswers<V>(ms: seq<Member<V>>, m: map<CString, V>, op: Op<V>)
    requires Unique(ms) && Answers(ms, m)
    ensures Answers(Apply(ms, op).0, MapStep(m, op))
  {
    forall k: CString
      ensures Lookup(Apply(ms, op).0, k) == if k in MapStep(m, op) then Some(MapStep(m, op)[k]) else None
    {
      match op
      case AddOp(x, v) =>
        assert Lookup(ms, x).Some? == (x in m);
        if !HasKey(ms, x) { LookupAdd(ms, x, v, k); }
      case SetOp(x, v) =>
        LookupPut(ms, x, v, k);
      case RemoveOp(x) =>
        assert Lookup(ms, x).Some? == (x in m);
        if HasKey(ms, x) { LookupRemove(ms, x, k); }
      case ClearOp =>
    }
  }

  /** After every run a lookup in the member list answers as the plain map does. */
  lemma {:induction false} RunAnswers<V>(ms: seq<Member<V>>, m: map<CString, V>, ops: seq<Op<V>>)
    requires Unique(ms) && Answers(ms, m)
    ensures Answers(ListAfter(ms, ops).0, MapAfter(m, ops))
    decreases |ops|
  {
    if |ops| > 0 {
      StepAnswers(ms, m, ops[0]);
      RunAnswers(Apply(ms, ops[0]).0, MapStep(m, ops[0]), ops[1..]);
    }
  }

  /** One operation on a table does what it does to the member list. */
  method Step<V(0)>(t: Table<V>, op: Op<V>) returns (ok: bool)
    requires t.Valid()
    modifies t.Repr()
    ensures t.Valid() && fresh(t.Repr() - old(t.Repr()))
    ensures (t.Items(), ok) == Apply(old(t.Items()), op)
  {
    ok := true;
    match op {
      case AddOp(k, v) => ok := t.Add(k, v);
      case SetOp(k, v) => t.Set(k, v);
      case RemoveOp(k) => ok := t.Remove(k);
      case ClearOp => t.Clear();
    }
  }

  /** Every run on a table follows the member list, and reports the same. */
  method Run<V(0)>(t: Table<V>, ops: seq<Op<V>>) returns (statuses: seq<bool>)
    requires t.Valid()
    modifies t.Repr()
    ensures t.Valid() && fresh(t.Repr() - old(t.Repr()))
    ensures (t.Items(), statuses) == ListAfter(old(t.Items()), ops)
    decreases |ops|
  {
    if |ops| == 0 {
      return [];
    }
    var ok := Step(t, ops[0]);
    statuses := Run(t, ops[1..]);
    statuses := [ok] + statuses;
  }

  /** From an empty table, for every hash function: each key is found exactly as the map says. */
  method RunThenGet<V(0)>(hash: CString -> nat, ops: seq<Op<V>>, key: CString) returns (r: Option<V>)
    ensures var m := MapAfter(map[], ops); r == if key in m then Some(m[key]) else None
  {
    var t := new Table<V>(hash, 0);
    var statuses := Run(t, ops);
    RunAnswers<V>([], map[], ops);
    r := t.Get(key);
  }
}
