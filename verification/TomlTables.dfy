/** The tables and arrays of the TOML reader, as objects that are updated in place. */
module TomlTables {
  import opened Bytes
  import opened TomlKeys
  import opened TomlStore

  class Arr {
    const key: Key
    var kind: Kind
    var typ: nat
    var vals: seq<seq<byte>>
    var arrs: seq<Arr>
    var tabs: seq<Tab>

    constructor (key: Key)
      ensures this.key == key && kind == Unknown && typ == 0 && vals == [] && arrs == [] && tabs == []
    {
      this.key := key;
      kind, typ, vals, arrs, tabs := Unknown, 0, [], [], [];
    }
  }

  /** A table; it is implicit while only longer paths have led through it. */
  class Tab {
    const key: Key
    var implicit: bool
    var kval: seq<KeyVal>
    var arr: seq<Arr>
    var tab: seq<Tab>

    constructor (key: Key, implicit: bool)
      ensures this.key == key && this.implicit == implicit && kval == [] && arr == [] && tab == []
    {
      this.key, this.implicit := key, implicit;
      kval, arr, tab := [], [], [];
    }
  }

  function ArrayKeys(arrs: seq<Arr>): (ks: seq<Key>)
    ensures |ks| == |arrs| && forall i :: 0 <= i < |arrs| ==> ks[i] == arrs[i].key
  {
    seq(|arrs|, i requires 0 <= i < |arrs| => arrs[i].key)
  }

  function TableKeys(tabs: seq<Tab>): (ks: seq<Key>)
    ensures |ks| == |tabs| && forall i :: 0 <= i < |tabs| ==> ks[i] == tabs[i].key
  {
    seq(|tabs|, i requires 0 <= i < |tabs| => tabs[i].key)
  }

  function ListsOf(t: Tab): Lists
    reads t`kval, t`arr, t`tab
  {
    Lists(ValueKeys(t.kval), ArrayKeys(t.arr), TableKeys(t.tab))
  }

  function KeysOf(t: Tab): seq<Key>
    reads t`kval, t`arr, t`tab
  {
    ListsOf(t).All()
  }

  /** Looks a key up in the values, then the arrays, then the sub-tables. */
  function CheckKey(t: Tab, key: Key): (r: Found)
    reads t`kval, t`arr, t`tab
    ensures r.Absent? <==> key !in KeysOf(t)
    ensures r.AtValue? ==> r.i < |t.kval| && t.kval[r.i].key == key
    ensures r.AtArray? ==> r.i < |t.arr| && t.arr[r.i].key == key
    ensures r.AtTable? ==> r.i < |t.tab| && t.tab[r.i].key == key
  {
    ListsOf(t).Find(key)
  }

  /** The key at an index, counting through the three lists. */
  function KeyIn(t: Tab, keyidx: nat): (r: Option<Key>)
    reads t`kval, t`arr, t`tab
  {
    if keyidx < |t.kval| then Some(t.kval[keyidx].key)
    else
      var i := keyidx - |t.kval|;
      if i < |t.arr| then Some(t.arr[i].key)
      else
        var j := i - |t.arr|;
        if j < |t.tab| then Some(t.tab[j].key) else None
  }

  /** The raw value of a key, if the key names a value. */
  function RawIn(t: Tab, key: Key): (r: Option<seq<byte>>)
    reads t`kval, t`arr, t`tab
  {
    match IndexIn(ValueKeys(t.kval), key)
    case None => None
    case Some(i) => Some(t.kval[i].val)
  }

  /** Counting through a table with distinct keys meets each key once, and its own value. */
  lemma KeysEnumerated(t: Tab)
    requires Distinct(KeysOf(t))
    ensures forall n: nat :: KeyIn(t, n) == if n < |KeysOf(t)| then Some(KeysOf(t)[n]) else None
    ensures forall m: nat, n: nat :: m < n < |KeysOf(t)| ==> KeyIn(t, m) != KeyIn(t, n)
    ensures forall n :: 0 <= n < |t.kval| ==> RawIn(t, t.kval[n].key) == Some(t.kval[n].val)
    ensures forall n :: |t.kval| <= n < |KeysOf(t)| ==> RawIn(t, KeysOf(t)[n]) == None
  {
    var ks, vs := KeysOf(t), ValueKeys(t.kval);
    assert forall i :: 0 <= i < |vs| ==> ks[i] == vs[i];
    forall n | 0 <= n < |t.kval| ensures RawIn(t, t.kval[n].key) == Some(t.kval[n].val) {
      var i := IndexIn(vs, vs[n]).value;
      assert ks[i] == ks[n];
    }
    forall n | |t.kval| <= n < |ks| ensures RawIn(t, ks[n]) == None {
      assert forall i :: 0 <= i < |vs| ==> vs[i] == ks[i] != ks[n];
    }
  }
}
