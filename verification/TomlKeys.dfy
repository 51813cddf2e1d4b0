/** The keys of a TOML table: those of its values, of its arrays and of its sub-tables, in this order. */
module TomlKeys {
  import opened Bytes

  /** Keys are C strings; the source compares them with `strcmp`. */
  type Key = CString

  datatype KeyVal = KeyVal(key: Key, val: seq<byte>)

  function ValueKeys(kvs: seq<KeyVal>): (ks: seq<Key>)
    ensures |ks| == |kvs| && forall i :: 0 <= i < |kvs| ==> ks[i] == kvs[i].key
  {
    seq(|kvs|, i requires 0 <= i < |kvs| => kvs[i].key)
  }

  ghost predicate Distinct<T>(s: seq<T>) {
    forall i, j :: 0 <= i < j < |s| ==> s[i] != s[j]
  }

  lemma InsertDistinct<T>(a: seq<T>, b: seq<T>, x: T)
    requires Distinct(a + b) && x !in a + b
    ensures Distinct(a + [x] + b)
  {
    var s, r := a + b, a + [x] + b;
    assert forall i :: 0 <= i < |r| && i != |a| ==> r[i] == s[if i < |a| then i else i - 1];
  }

  function IndexIn(ks: seq<Key>, key: Key): (r: Option<nat>)
    ensures r.Some? ==> r.value < |ks| && ks[r.value] == key
    ensures r.None? <==> key !in ks
  {
    if |ks| == 0 then None
    else if ks[0] == key then Some(0)
    else
      match IndexIn(ks[1..], key)
      case None => None
      case Some(i) => Some(i + 1)
  }

  lemma IndexOfElement(ks: seq<Key>, i: nat)
    requires Distinct(ks) && i < |ks|
    ensures IndexIn(ks, ks[i]) == Some(i)
  {
  }

  /** Where a key is: a value, an array or a table at some index, in this order of search. */
  datatype Found = Absent | AtValue(i: nat) | AtArray(i: nat) | AtTable(i: nat)

  datatype Lists = Lists(vs: seq<Key>, rs: seq<Key>, ts: seq<Key>) {
    function All(): seq<Key> {
      vs + rs + ts
    }

    function Find(key: Key): (r: Found)
      ensures r.Absent? <==> key !in All()
      ensures r.AtValue? ==> r.i < |vs| && vs[r.i] == key
      ensures r.AtArray? ==> r.i < |rs| && rs[r.i] == key
      ensures r.AtTable? ==> r.i < |ts| && ts[r.i] == key
    {
      match IndexIn(vs, key)
      case Some(i) => AtValue(i)
      case None =>
        match IndexIn(rs, key)
        case Some(i) => AtArray(i)
        case None =>
          match IndexIn(ts, key)
          case Some(i) => AtTable(i)
          case None => Absent
    }

    lemma Parts()
      requires Distinct(All())
      ensures Distinct(vs) && Distinct(rs) && Distinct(ts)
      ensures forall i :: 0 <= i < |rs| ==> rs[i] !in vs
      ensures forall i :: 0 <= i < |ts| ==> ts[i] !in vs && ts[i] !in rs
    {
      var ks := All();
      assert forall i :: 0 <= i < |vs| ==> ks[i] == vs[i];
      assert forall i :: 0 <= i < |rs| ==> ks[|vs| + i] == rs[i];
      assert forall i :: 0 <= i < |ts| ==> ks[|vs| + |rs| + i] == ts[i];
    }

    /** With distinct keys, looking up the key of an element finds that element. */
    lemma FoundThere()
      requires Distinct(All())
      ensures forall i :: 0 <= i < |vs| ==> Find(vs[i]) == AtValue(i)
      ensures forall i :: 0 <= i < |rs| ==> Find(rs[i]) == AtArray(i)
      ensures forall i :: 0 <= i < |ts| ==> Find(ts[i]) == AtTable(i)
    {
      Parts();
      forall i | 0 <= i < |vs| ensures Find(vs[i]) == AtValue(i) {
        IndexOfElement(vs, i);
      }
      forall i | 0 <= i < |rs| ensures Find(rs[i]) == AtArray(i) {
        IndexOfElement(rs, i);
      }
      forall i | 0 <= i < |ts| ensures Find(ts[i]) == AtTable(i) {
        IndexOfElement(ts, i);
      }
    }

    /** The same lists, with elements added at their ends. */
    ghost predicate Within(more: Lists) {
      vs <= more.vs && rs <= more.rs && ts <= more.ts
    }

    /** What was found before is found at the same place after elements have been added. */
    lemma FoundAgain(more: Lists, key: Key)
      requires Within(more) && Distinct(more.All()) && key in All()
      ensures more.Find(key) == Find(key)
    {
      more.FoundThere();
      match Find(key)
      case AtValue(i) => assert more.vs[i] == key;
      case AtArray(i) => assert more.rs[i] == key;
      case AtTable(i) => assert more.ts[i] == key;
    }

    lemma MoreValues(k: Key)
      requires Distinct(All()) && k !in All()
      ensures Distinct(this.(vs := vs + [k]).All())
    {
      assert All() == vs + (rs + ts) && this.(vs := vs + [k]).All() == vs + [k] + (rs + ts);
      InsertDistinct(vs, rs + ts, k);
    }

    lemma MoreArrays(k: Key)
      requires Distinct(All()) && k !in All()
      ensures Distinct(this.(rs := rs + [k]).All())
    {
      assert this.(rs := rs + [k]).All() == vs + rs + [k] + ts;
      InsertDistinct(vs + rs, ts, k);
    }

    lemma MoreTables(k: Key)
      requires Distinct(All()) && k !in All()
      ensures Distinct(this.(ts := ts + [k]).All())
    {
      assert All() == All() + [] && this.(ts := ts + [k]).All() == All() + [k] + [];
      InsertDistinct(All(), [], k);
    }
  }
}
