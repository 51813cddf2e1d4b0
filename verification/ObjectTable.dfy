/**
 * The hash table behind a JSON object: open addressing with linear probing over a
 * power-of-two array of cells, beside dense arrays in insertion order.  For every hash
 * function it refines the member lists of `Members`.
 */
module ObjectTable {
  import opened Bytes
  import opened Members
  import opened Probing

  const STARTING_CAPACITY: nat := 16
  const SIZE_MAX: nat := 0xFFFF_FFFF_FFFF_FFFF

  predicate CapacityOk(n: nat) {
    n == 0 || (n >= STARTING_CAPACITY && PowerOfTwo(n))
  }

  function ItemCapacity(n: nat): nat {
    n * 7 / 10
  }

  function NewCapacity(n: nat): nat {
    if n * 2 > STARTING_CAPACITY then n * 2 else STARTING_CAPACITY
  }

  lemma GrowthMakesRoom(n: nat)
    requires CapacityOk(n)
    ensures CapacityOk(NewCapacity(n)) && ItemCapacity(n) < ItemCapacity(NewCapacity(n))
    ensures NewCapacity(n) == if n == 0 then STARTING_CAPACITY else 2 * n
  {
    if n > 0 {
      assert (2 * n) / 2 == n;
    } else {
      assert PowerOfTwo(2) && PowerOfTwo(4) && PowerOfTwo(8);
    }
  }

  ghost function Zip<V>(names: seq<CString>, values: seq<V>): (ms: seq<Member<V>>)
    requires |names| == |values|
  {
    seq(|names|, i requires 0 <= i < |names| => Member(names[i], values[i]))
  }

  ghost function Homes(hashes: seq<nat>, n: nat): (homes: seq<nat>)
    requires n > 0
    ensures |homes| == |hashes|
    ensures forall t :: 0 <= t < |hashes| ==> homes[t] == hashes[t] % n < n
  {
    seq(|hashes|, t requires 0 <= t < |hashes| => hashes[t] % n)
  }

  /** How many probes lead from cell `h` to cell `c`. */
  function Steps(h: nat, c: nat, n: nat): int {
    if c >= h then c - h else c - h + n
  }

  /** Everything the table promises about its arrays, on values. */
  ghost predicate Consistent(hash: CString -> nat, cells: seq<int>, hashes: seq<nat>,
      names: seq<CString>, cellIxs: seq<nat>) {
    && |hashes| == |names| == |cellIxs| <= ItemCapacity(|cells|)
    && CapacityOk(|cells|)
    && (forall t :: 0 <= t < |names| ==> hashes[t] == hash(names[t]))
    && (forall t, u :: 0 <= t < u < |names| ==> names[t] != names[u])
    && Linked(cells, cellIxs)
    && (|cells| > 0 ==> Probed(cells, Homes(hashes, |cells|), cellIxs))
  }

  /** A full turn of probing cannot happen: the load factor leaves an empty cell. */
  lemma ProbeEnds(hash: CString -> nat, cells: seq<int>, hashes: seq<nat>, names: seq<CString>, cellIxs: seq<nat>)
    requires Consistent(hash, cells, hashes, names, cellIxs) && |cells| > 0
    ensures exists c :: 0 <= c < |cells| && cells[c] == EMPTY
  {
    var c := EmptyCellBesides(cells, cellIxs, -1);
  }

  /** What is not on the path to a cell comes after that cell. */
  lemma BeforeOnPath(h: nat, p: nat, c: nat, n: nat)
    requires h < n && p < n && c < n && p != c && !OnPath(h, c, p)
    ensures Steps(h, p, n) < Steps(h, c, n)
  {
  }

  /** An empty cell on a key's probe path proves the key absent. */
  lemma EmptyMeansAbsent(hash: CString -> nat, cells: seq<int>, hashes: seq<nat>, names: seq<CString>,
      cellIxs: seq<nat>, key: CString, ix: nat)
    requires Consistent(hash, cells, hashes, names, cellIxs) && ix < |cells| && cells[ix] == EMPTY
    requires
      var home := hash(key) % |cells|;
      forall c :: 0 <= c < |cells| && Steps(home, c, |cells|) < Steps(home, ix, |cells|) ==>
        cells[c] != EMPTY && names[cells[c]] != key
    ensures key !in names
  {
    var home := hash(key) % |cells|;
    var homes := Homes(hashes, |cells|);
    forall t | 0 <= t < |names| ensures names[t] != key {
      var p := cellIxs[t];
      assert cells[p] == t && !OnPath(homes[t], ix, p);
      if homes[t] == home {
        BeforeOnPath(home, p, ix, |cells|);
        assert names[cells[p]] != key;
      }
    }
  }

  /** The swapped-out dense arrays still hash their own, distinct names. */
  lemma SwapRemoveConsistent(hash: CString -> nat, hashes: seq<nat>, names: seq<CString>, x: nat,
      cells: seq<int>, cellIxs: seq<nat>)
    requires |hashes| == |names| == |cellIxs| + 1 <= ItemCapacity(|cells|) && x < |names|
    requires CapacityOk(|cells|)
    requires forall t :: 0 <= t < |names| ==> hashes[t] == hash(names[t])
    requires forall t, u :: 0 <= t < u < |names| ==> names[t] != names[u]
    requires Linked(cells, cellIxs)
    requires Probed(cells, Homes(SwapRemove(hashes, x), |cells|), cellIxs)
    ensures Consistent(hash, cells, SwapRemove(hashes, x), SwapRemove(names, x), cellIxs)
  {
    var hs, ns, last := SwapRemove(hashes, x), SwapRemove(names, x), |names| - 1;
    assert forall t :: 0 <= t < last ==>
      ns[t] == names[if t == x then last else t] && hs[t] == hashes[if t == x then last else t];
  }

  class Table<V(0)> {
    const hash: CString -> nat
    var cells: array<int>
    var hashes: array<nat>
    var names: array<CString>
    var values: array<V>
    var cellIxs: array<nat>
    var count: nat
    var itemCapacity: nat
    var cellCapacity: nat

    ghost function Repr(): set<object>
      reads this
    {
      {this, cells, hashes, names, values, cellIxs}
    }

    ghost predicate Shape()
      reads this
    {
      && cells.Length == cellCapacity
      && itemCapacity == ItemCapacity(cellCapacity)
      && hashes.Length == names.Length == values.Length == cellIxs.Length == itemCapacity
      && count <= itemCapacity
      && cells as object != hashes && cells as object != cellIxs && hashes != cellIxs
      && cells as object != names && hashes as object != names && cellIxs as object != names
      && cells as object != values && hashes as object != values && cellIxs as object != values
      && names as object != values
    }

    ghost predicate Valid()
      reads this, cells, hashes, names, cellIxs
    {
      && Shape()
      && Consistent(hash, cells[..], hashes[..count], names[..count], cellIxs[..count])
    }

    /** The members in insertion order. */
    ghost function Items(): (ms: seq<Member<V>>)
      requires Shape()
      reads this, names, values
    {
      Zip(names[..count], values[..count])
    }

    lemma ItemsUnique()
      requires Valid()
      ensures Unique(Items())
    {
      assert forall i :: 0 <= i < count ==> Items()[i].key == names[..count][i];
    }

    constructor (hash: CString -> nat, capacity: nat)
      requires CapacityOk(capacity)
      ensures Valid() && Items() == [] && this.hash == hash
      ensures cellCapacity == capacity
      ensures fresh(Repr())
    {
      this.hash := hash;
      cells := new int[capacity](_ => EMPTY);
      hashes := new nat[ItemCapacity(capacity)];
      names := new CString[ItemCapacity(capacity)];
      values := new V[ItemCapacity(capacity)];
      cellIxs := new nat[ItemCapacity(capacity)];
      count := 0;
      cellCapacity := capacity;
      itemCapacity := ItemCapacity(capacity);
    }

    /** The home cell of a hash value; with no cells at all the mask has every bit set. */
    method HomeCell(h: nat) returns (c: nat)
      requires CapacityOk(cellCapacity)
      ensures cellCapacity > 0 ==> c == h % cellCapacity < cellCapacity
    {
      var mask := if cellCapacity == 0 then SIZE_MAX else cellCapacity - 1;
      if cellCapacity > 0 { MaskIsMod(h, cellCapacity); }
      c := BitAnd(h, mask);
    }

    /** The cell `i` places after cell `c`, wrapping at the end. */
    method CellAfter(c: nat, i: nat) returns (ix: nat)
      requires CapacityOk(cellCapacity) && c < cellCapacity && i < cellCapacity
      ensures ix == Wrap(c + i, cellCapacity) < cellCapacity
    {
      MaskWraps(c + i, cellCapacity);
      ix := BitAnd(c + i, cellCapacity - 1);
    }

    /** The probe loop: from the home cell on, until a match or an empty cell. */
    method Probe(key: CString, h: nat) returns (ix: int, found: bool)
      requires Shape() && CapacityOk(cellCapacity)
      requires forall c :: 0 <= c < cellCapacity ==> cells[c] == EMPTY || 0 <= cells[c] < count
      requires forall t :: 0 <= t < count ==> hashes[t] == hash(names[t])
      requires cellCapacity > 0 ==> exists c :: 0 <= c < cellCapacity && cells[c] == EMPTY
      requires h == hash(key)
      ensures cellCapacity == 0 ==> ix == EMPTY && !found
      ensures cellCapacity > 0 ==>
        && 0 <= ix < cellCapacity
        && (if found then cells[ix] != EMPTY && names[cells[ix]] == key else cells[ix] == EMPTY)
        && var home := h % cellCapacity;
           forall c :: 0 <= c < cellCapacity && Steps(home, c, cellCapacity) < Steps(home, ix, cellCapacity) ==>
             cells[c] != EMPTY && names[cells[c]] != key
    {
      var cellIx := HomeCell(h);
      var i := 0;
      while i < cellCapacity
        invariant 0 <= i <= cellCapacity
        invariant forall c :: 0 <= c < cellCapacity && Steps(cellIx, c, cellCapacity) < i ==>
          cells[c] != EMPTY && names[cells[c]] != key
      {
        ix := CellAfter(cellIx, i);
        var cell := cells[ix];
        if cell == EMPTY {
          return ix, false;
        }
        if hashes[cell] == h && names[cell] == key {
          return ix, true;
        }
        i := i + 1;
      }
      return EMPTY, false;
    }

    /** Where a key is, or the empty cell at the end of its path where it would go. */
    method GetCellIx(key: CString, h: nat) returns (ix: int, found: bool)
      requires Valid() && h == hash(key)
      ensures found <==> HasKey(Items(), key)
      ensures found ==> 0 <= ix < cellCapacity && 0 <= cells[ix] < count && names[cells[ix]] == key
      ensures !found && cellCapacity > 0 ==>
        && 0 <= ix < cellCapacity && cells[ix] == EMPTY
        && forall c :: 0 <= c < cellCapacity && OnPath(h % cellCapacity, c, ix) ==> cells[c] != EMPTY
    {
      ghost var cs, hs, ns, xs := cells[..], hashes[..count], names[..count], cellIxs[..count];
      if cellCapacity > 0 { ProbeEnds(hash, cs, hs, ns, xs); }
      ix, found := Probe(key, h);
      assert found ==> ns[cells[ix]] == key;
      if !found && cellCapacity > 0 {
        EmptyMeansAbsent(hash, cs, hs, ns, xs, key, ix);
      }
      KeysAreNames(key);
    }

    /** The six assignments by which add and set store a new key. */
    method Store(ix: nat, key: CString, h: nat, v: V)
      requires Valid() && count < itemCapacity
      requires h == hash(key) && !HasKey(Items(), key)
      requires ix < cellCapacity && cells[ix] == EMPTY
      requires forall c :: 0 <= c < cellCapacity && OnPath(h % cellCapacity, c, ix) ==> cells[c] != EMPTY
      modifies `count, cells, hashes, names, values, cellIxs
      ensures Valid()
      ensures Items() == old(Items()) + [Member(key, v)]
    {
      KeysAreNames(key);
      InsertKeeps(cells[..], Homes(hashes[..count], cellCapacity), cellIxs[..count], h % cellCapacity, ix);
      names[count] := key;
      cells[ix] := count;
      values[count] := v;
      cellIxs[count] := ix;
      hashes[count] := h;
      count := count + 1;
      assert cells[..] == old(cells[..])[ix := old(count)];
      assert cellIxs[..count] == old(cellIxs[..count]) + [ix];
      assert hashes[..count] == old(hashes[..count]) + [h];
      assert names[..count] == old(names[..count]) + [key];
      assert Homes(hashes[..count], cellCapacity) == Homes(old(hashes[..count]), cellCapacity) + [h % cellCapacity];
    }

    /** Adds the members of another table, in order, to this empty table with room for all of them. */
    method AddAll(ns: seq<CString>, vs: seq<V>)
      requires Valid() && count == 0 && |ns| == |vs| <= itemCapacity && Unique(Zip(ns, vs))
      modifies this, cells, hashes, names, values, cellIxs
      ensures Valid() && Items() == Zip(ns, vs)
      ensures cellCapacity == old(cellCapacity) && Repr() == old(Repr())
      decreases 0, 5
    {
      ghost var items := Zip(ns, vs);
      var i := 0;
      while i < |ns|
        invariant 0 <= i <= |ns|
        invariant Valid() && cellCapacity == old(cellCapacity) && Repr() == old(Repr())
        invariant Items() == items[..i]
      {
        AddNext(ns[i], vs[i], items, i);
        i := i + 1;
      }
      assert items[..i] == items;
    }

    /** Adds one of the members of another table; there is room for it. */
    method AddNext(key: CString, v: V, ghost items: seq<Member<V>>, ghost i: nat)
      requires Valid() && Unique(items) && i < |items| <= itemCapacity
      requires Items() == items[..i] && items[i] == Member(key, v)
      modifies this, cells, hashes, names, values, cellIxs
      ensures Valid() && Items() == items[..i + 1]
      ensures cellCapacity == old(cellCapacity) && Repr() == old(Repr())
      decreases 0, 4
    {
      assert count == |Items()| == i;
      var ok := Add(key, v);
      assert items[..i] + [items[i]] == items[..i + 1];
    }

    /** Twice the cells; every member again, in order.  No add inside this one grows. */
    method GrowAndRehash()
      requires Valid() && count >= itemCapacity
      modifies this
      ensures Valid() && count < itemCapacity
      ensures Items() == old(Items())
      ensures cellCapacity == if old(cellCapacity) == 0 then 16 else 2 * old(cellCapacity)
      ensures fresh(Repr() - {this})
      decreases 1, 0
    {
      GrowthMakesRoom(cellCapacity);
      var grown := new Table<V>(hash, NewCapacity(cellCapacity));
      ItemsUnique();
      grown.AddAll(names[..count], values[..count]);
      assert |grown.Items()| == |Items()|;
      ghost var arrays := grown.Repr();
      assert fresh(arrays);
      Adopt(grown);
    }

    /** The struct assignment that hands the arrays of `other` over to this table. */
    method Adopt(other: Table<V>)
      requires other.Valid() && other.hash == hash && this !in other.Repr()
      modifies this
      ensures Valid() && Items() == other.Items()
      ensures cellCapacity == other.cellCapacity && itemCapacity == other.itemCapacity && count == other.count
      ensures Repr() == other.Repr() - {other} + {this}
    {
      cells, hashes, names, values, cellIxs := other.cells, other.hashes, other.names, other.values, other.cellIxs;
      count, itemCapacity, cellCapacity := other.count, other.itemCapacity, other.cellCapacity;
    }

    /** Grows a full table, and then probes again for the cell of the new key. */
    method MakeRoom(key: CString, h: nat, ix: int) returns (ix': int)
      requires Valid() && h == hash(key) && !HasKey(Items(), key)
      requires cellCapacity > 0 ==>
        && 0 <= ix < cellCapacity && cells[ix] == EMPTY
        && forall c :: 0 <= c < cellCapacity && OnPath(h % cellCapacity, c, ix) ==> cells[c] != EMPTY
      modifies this
      ensures Valid() && Items() == old(Items()) && count < itemCapacity
      ensures 0 <= ix' < cellCapacity && cells[ix'] == EMPTY
      ensures forall c :: 0 <= c < cellCapacity && OnPath(h % cellCapacity, c, ix') ==> cells[c] != EMPTY
      ensures old(count) < old(itemCapacity) ==> unchanged(this)
      ensures old(count) >= old(itemCapacity) ==>
        cellCapacity == if old(cellCapacity) == 0 then 16 else 2 * old(cellCapacity)
      ensures fresh(Repr() - old(Repr()))
      decreases if count >= itemCapacity then 1 else 0, 1
    {
      if count < itemCapacity {
        return ix;
      }
      GrowAndRehash();
      var found;
      ix', found := GetCellIx(key, h);
    }

    /** Grows if need be and stores a key that is not in the table. */
    method AddNew(key: CString, h: nat, ix: int, v: V)
      requires Valid() && h == hash(key) && !HasKey(Items(), key)
      requires cellCapacity > 0 ==>
        && 0 <= ix < cellCapacity && cells[ix] == EMPTY
        && forall c :: 0 <= c < cellCapacity && OnPath(h % cellCapacity, c, ix) ==> cells[c] != EMPTY
      modifies this, cells, hashes, names, values, cellIxs
      ensures Valid() && Items() == old(Items()) + [Member(key, v)]
      ensures old(count) < old(itemCapacity) ==> cellCapacity == old(cellCapacity) && Repr() == old(Repr())
      ensures old(count) >= old(itemCapacity) ==>
        cellCapacity == if old(cellCapacity) == 0 then 16 else 2 * old(cellCapacity)
      ensures fresh(Repr() - old(Repr()))
      decreases if count >= itemCapacity then 1 else 0, 2
    {
      var ix' := MakeRoom(key, h, ix);
      Store(ix', key, h, v);
    }

    /** Appends a new key; a key that is already there is refused and nothing changes. */
    method Add(key: CString, v: V) returns (ok: bool)
      requires Valid()
      modifies this, cells, hashes, names, values, cellIxs
      ensures Valid()
      ensures ok == Members.Add(old(Items()), key, v).Some?
      ensures Items() == if ok then Members.Add(old(Items()), key, v).value else old(Items())
      ensures ok ==> Items() == old(Items()) + [Member(key, v)]
      ensures old(count) < old(itemCapacity) || !ok ==> cellCapacity == old(cellCapacity) && Repr() == old(Repr())
      ensures ok && old(count) >= old(itemCapacity) ==>
        cellCapacity == if old(cellCapacity) == 0 then 16 else 2 * old(cellCapacity)
      ensures fresh(Repr() - old(Repr()))
      decreases if count >= itemCapacity then 1 else 0, 3
    {
      var h := hash(key);
      var ix, found := GetCellIx(key, h);
      if found {
        return false;
      }
      AddNew(key, h, ix, v);
      return true;
    }

    /** The members as a value, read off index by index. */
    method ToMembers() returns (ms: seq<Member<V>>)
      requires Valid()
      ensures ms == Items()
    {
      ms := [];
      var i := 0;
      while i < count
        invariant 0 <= i <= count
        invariant ms == Items()[..i]
      {
        ms := ms + [Member(names[i], values[i])];
        i := i + 1;
      }
    }

    /** The value stored under a key, if any. */
    method Get(key: CString) returns (r: Option<V>)
      requires Valid()
      ensures r == Lookup(Items(), key)
    {
      var ix, found := GetCellIx(key, hash(key));
      if !found {
        return None;
      }
      ItemsUnique();
      LookupUnique(Items(), cells[ix]);
      return Some(values[cells[ix]]);
    }

    method Replace(itemIx: nat, v: V)
      requires Valid() && itemIx < count
      modifies values
      ensures Valid()
      ensures Items() == old(Items())[itemIx := Member(names[itemIx], v)]
    {
      values[itemIx] := v;
    }

    /** Replaces the value of a key in place, or appends the key. */
    method Set(key: CString, v: V)
      requires Valid()
      modifies this, cells, hashes, names, values, cellIxs
      ensures Valid()
      ensures Items() == Put(old(Items()), key, v) && SetInPlace(old(Items()), key, v, Items())
      ensures fresh(Repr() - old(Repr()))
    {
      ItemsUnique();
      PutExactly(Items(), key, v, Put(Items(), key, v));
      var h := hash(key);
      var ix, found := GetCellIx(key, h);
      if found {
        LookupUnique(Items(), cells[ix]);
        Replace(cells[ix], v);
        return;
      }
      ghost var items := Items();
      assert Put(items, key, v) == items + [Member(key, v)];
      AddNew(key, h, ix, v);
    }

    /** The cells of a table from which the item of cell `hole` has been taken. */
    ghost predicate Holed(hole: nat, scan: nat)
      requires Shape()
      reads this, cells, hashes, cellIxs
    {
      && hole < cellCapacity && CapacityOk(cellCapacity) && count < itemCapacity
      && var cs := cells[..][hole := EMPTY];
         var homes := Homes(hashes[..count], cellCapacity);
         && Linked(cs, cellIxs[..count])
         && ProbedPastHole(cs, homes, cellIxs[..count], hole, scan)
    }

    /** The last item of the dense arrays moves to `itemIx`, and its cell learns the new number. */
    method MoveLast(itemIx: nat, lastItemIx: nat)
      requires Shape() && itemIx <= lastItemIx < count
      requires cellIxs[lastItemIx] < cellCapacity && cells[cellIxs[lastItemIx]] == lastItemIx
      modifies cells, hashes, names, values, cellIxs
      ensures names[..] == old(names[..])[itemIx := old(names[lastItemIx])]
      ensures values[..] == old(values[..])[itemIx := old(values[lastItemIx])]
      ensures cellIxs[..] == old(cellIxs[..])[itemIx := old(cellIxs[lastItemIx])]
      ensures hashes[..] == old(hashes[..])[itemIx := old(hashes[lastItemIx])]
      ensures cells[..] == old(cells[..])[old(cellIxs[lastItemIx]) := itemIx]
    {
      if itemIx < lastItemIx {
        names[itemIx] := names[lastItemIx];
        values[itemIx] := values[lastItemIx];
        cellIxs[itemIx] := cellIxs[lastItemIx];
        hashes[itemIx] := hashes[lastItemIx];
        cells[cellIxs[itemIx]] := itemIx;
      }
    }

    /** Takes the item of `cell` out of the dense arrays: the last one moves into its place. */
    method SwapOut(cell: nat)
      requires Valid() && cell < cellCapacity && cells[cell] != EMPTY
      modifies `count, cells, hashes, names, values, cellIxs
      ensures Shape() && Holed(cell, cell)
      ensures count == old(count) - 1
      ensures names[..count] == SwapRemove(old(names[..count]), old(cells[cell]))
      ensures hashes[..count] == SwapRemove(old(hashes[..count]), old(cells[cell]))
      ensures Items() == SwapRemove(old(Items()), old(cells[cell]))
    {
      ghost var x := cells[cell];
      ghost var homes, cs, xs := Homes(hashes[..count], cellCapacity), cells[..], cellIxs[..count];
      SwapRemoveKeeps(cs, homes, xs, cell);
      var itemIx, lastItemIx := cells[cell], count - 1;
      MoveLast(itemIx, lastItemIx);
      count := count - 1;
      assert cellIxs[..count] == SwapRemove(xs, x);
      assert Homes(hashes[..count], cellCapacity) == SwapRemove(homes, x);
      assert cells[..][cell := EMPTY] == cs[xs[lastItemIx] := x][cell := EMPTY];
    }

    /** One step of the backward shift at cell `j`: its item moves into the hole if its path crosses it. */
    method ShiftOne(i: nat, ghost scan: nat, j: nat) returns (i': nat)
      requires Shape() && Holed(i, scan)
      requires scan < cellCapacity && j == Wrap(scan + 1, cellCapacity) && j != i && cells[j] != EMPTY
      modifies cells, cellIxs
      ensures Holed(i', j)
      ensures i' == i || (i' == j && cells[i] != EMPTY)
      ensures forall c :: 0 <= c < cellCapacity && c != i ==> cells[c] == old(cells[c])
    {
      ghost var homes := Homes(hashes[..count], cellCapacity);
      ghost var cs, xs := cells[..][i := EMPTY], cellIxs[..count];
      assert cs[j] == cells[j];
      var k := HomeCell(hashes[cells[j]]);
      if (j > i && (k <= i || k > j)) || (j < i && (k <= i && k > j)) {
        ShiftMoves(cs, homes, xs, i, scan, j);
        cellIxs[cells[j]] := i;
        cells[i] := cells[j];
        assert cellIxs[..count] == xs[cs[j] := i];
        assert cells[..][j := EMPTY] == cs[i := cs[j]][j := EMPTY];
        return j;
      }
      ShiftSkips(cs, homes, xs, i, scan, j);
      return i;
    }

    /** An empty cell ends the run: the hole may become empty as well. */
    lemma HoleCloses(i: nat, scan: nat, j: nat)
      requires Shape() && Holed(i, scan) && scan < cellCapacity && j == Wrap(scan + 1, cellCapacity)
      requires j != i && cells[j] == EMPTY
      ensures Linked(cells[..][i := EMPTY], cellIxs[..count])
      ensures Probed(cells[..][i := EMPTY], Homes(hashes[..count], cellCapacity), cellIxs[..count])
    {
      ShiftEnds(cells[..][i := EMPTY], Homes(hashes[..count], cellCapacity), cellIxs[..count], i, scan, j);
    }

    /** Backward shift: items move into the hole until an empty cell ends the run. */
    method CloseHole(cell: nat)
      requires Shape() && Holed(cell, cell)
      modifies cells, cellIxs
      ensures Linked(cells[..], cellIxs[..count])
      ensures Probed(cells[..], Homes(hashes[..count], cellCapacity), cellIxs[..count])
    {
      ghost var end := EmptyCellBesides(cells[..][cell := EMPTY], cellIxs[..count], cell);
      assert cells[end] == EMPTY;
      ghost var closed := false;
      var i, j, x := cell, cell, 0;
      while x < cellCapacity - 1
        invariant 0 <= x <= cellCapacity - 1 && !closed
        invariant j == Wrap(cell + x, cellCapacity)
        invariant i == cell || Passed(cell, i, j)
        invariant Holed(i, j)
        invariant i != end && cells[end] == EMPTY && x < Steps(cell, end, cellCapacity)
      {
        ghost var scan := j;
        j := CellAfter(j, 1);
        if cells[j] == EMPTY {
          HoleCloses(i, scan, j);
          closed := true;
          break;
        }
        i := ShiftOne(i, scan, j);
        x := x + 1;
      }
      if !closed {
        assert false;
      }
      cells[i] := EMPTY;
    }

    /** Removes a key; the last member takes its place. */
    method Remove(key: CString) returns (ok: bool)
      requires Valid()
      modifies this, cells, hashes, names, values, cellIxs
      ensures Valid() && cellCapacity == old(cellCapacity)
      ensures ok == Members.Remove(old(Items()), key).Some?
      ensures Items() == if ok then Members.Remove(old(Items()), key).value else old(Items())
      ensures ok <==> HasKey(old(Items()), key)
      ensures ok ==> GapFilled(old(Items()), key, Items())
      ensures Repr() == old(Repr())
    {
      var cell, found := GetCellIx(key, hash(key));
      if !found {
        return false;
      }
      ItemsUnique();
      LookupUnique(Items(), cells[cell]);
      RemoveExactly(Items(), key, Members.Remove(Items(), key).value);
      ghost var x, hs, ns := cells[cell], hashes[..count], names[..count];
      SwapOut(cell);
      CloseHole(cell);
      SwapRemoveConsistent(hash, hs, ns, x, cells[..], cellIxs[..count]);
      return true;
    }

    /** Forgets every member and keeps the arrays. */
    method Clear()
      requires Valid()
      modifies `count, cells
      ensures Valid() && Items() == []
      ensures cellCapacity == old(cellCapacity) && Repr() == old(Repr())
    {
      count := 0;
      var i := 0;
      while i < cellCapacity
        invariant 0 <= i <= cellCapacity
        invariant forall c :: 0 <= c < i ==> cells[c] == EMPTY
        modifies cells
      {
        cells[i] := EMPTY;
        i := i + 1;
      }
    }

    /** One cell per member, and never more members than the load factor admits. */
    lemma LoadFactor()
      requires Valid()
      ensures |EmptyCells(cells[..])| == cellCapacity - |Items()|
      ensures 10 * |Items()| <= 7 * cellCapacity
      ensures cellCapacity == 0 || (cellCapacity >= 16 && PowerOfTwo(cellCapacity))
      ensures itemCapacity == 7 * cellCapacity / 10
    {
      EmptyCellCount(cells[..], cellIxs[..count]);
    }

    lemma KeysAreNames(key: CString)
      requires Shape()
      ensures HasKey(Items(), key) <==> key in names[..count]
    {
      assert forall i :: 0 <= i < count ==> Items()[i].key == names[..count][i];
    }
  }
}
