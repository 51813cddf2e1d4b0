/** Exactly which assignments are accepted, said of the tables as they are before. */
module TomlAccept {
  import opened Bytes
  import opened TomlKeys
  import opened TomlStore
  import opened TomlHeaders
  import opened TomlInline

  /**
   * A new key takes what is loadable; a key that names an implicit table takes an inline table
   * whose keys differ and are each accepted there; any other key takes nothing.
   */
  ghost predicate Accepts(s: Store, i: nat, key: Key, v: Inline, vt: seq<byte> -> nat)
    decreases v, 0
  {
    match Find(s, i, key)
    case Absent => Loadable(v, vt)
    case AtTable(j) => v.Entries? && T(s, T(s, i).tab[j]).implicit && AcceptsAll(s, T(s, i).tab[j], v, |v.entries|, vt)
    case _ => false
  }

  ghost predicate AcceptsAll(s: Store, n: nat, v: Inline, m: nat, vt: seq<byte> -> nat)
    requires v.Entries? && m <= |v.entries|
    decreases v, -1
  {
    forall k {:trigger AcceptsEntry(s, n, v, k, vt)} :: 0 <= k < m ==> AcceptsEntry(s, n, v, k, vt)
  }

  ghost predicate AcceptsEntry(s: Store, n: nat, v: Inline, k: nat, vt: seq<byte> -> nat)
    requires v.Entries? && k < |v.entries|
    decreases v.entries[k].val, 1
  {
    NewKey(v.entries, k) && Accepts(s, n, v.entries[k].key, v.entries[k].val, vt)
  }

  // ---- Tables under a table --------------------------------------------------------------------------

  /** Table `r` is `c` or a sub-table of a sub-table of .. of `c`. */
  predicate Under(s: Store, c: nat, r: nat)
    decreases T(s, r).level
  {
    || r == c
    || (T(s, c).level < T(s, r).level && T(s, T(s, r).up).level < T(s, r).level && Under(s, c, T(s, r).up))
  }

  lemma {:induction false} UnderUnique(s: Store, c: nat, d: nat, r: nat)
    requires T(s, c).level == T(s, d).level && Under(s, c, r) && Under(s, d, r)
    ensures c == d
    decreases T(s, r).level
  {
    if r != c && r != d {
      UnderUnique(s, c, d, T(s, r).up);
    }
  }

  /** Whether a table is under another one does not change. */
  lemma {:induction false} UnderSame(s: Store, s': Store, c: nat, r: nat, vt: seq<byte> -> nat)
    requires Ok(s, vt) && Extends(s, s') && c < |s.tabs| && r < |s.tabs|
    ensures Under(s', c, r) == Under(s, c, r)
    decreases T(s, r).level
  {
    var up := T(s, r).up;
    assert TabOk(s, r);
    assert TabGrows(T(s, c), T(s', c)) && TabGrows(T(s, r), T(s', r)) && TabGrows(T(s, up), T(s', up));
    if T(s, up).level < T(s, r).level {
      UnderSame(s, s', c, up, vt);
    }
  }

  lemma {:induction false} UnderParent(s: Store, n: nat, c: nat, r: nat)
    requires T(s, c).up == n && T(s, c).level == T(s, n).level + 1 && Under(s, c, r)
    ensures Under(s, n, r) && r != n
    decreases T(s, r).level
  {
    if r != c {
      UnderParent(s, n, c, T(s, r).up);
    } else {
      assert Under(s, n, n);
    }
  }

  // ---- What an assignment does not touch ---------------------------------------------------------------

  /** A table that an assignment to `key` in table `i` leaves alone. */
  predicate Untouched(s: Store, i: nat, key: Key, r: nat) {
    match Find(s, i, key)
    case Absent => r != i
    case AtTable(j) => !Under(s, T(s, i).tab[j], r)
    case _ => true
  }

  lemma {:induction false} AssignFrame(s: Store, i: nat, key: Key, v: Inline, r: nat, vt: seq<byte> -> nat)
    requires Ok(s, vt) && i < |s.tabs| && Assign(s, i, key, v, vt).Some? && r < |s.tabs| && Untouched(s, i, key, r)
    ensures T(Assign(s, i, key, v, vt).value, r) == T(s, r)
    decreases v, 1, 0
  {
    if key !in Keys(s, i) {
      AssignNew(s, i, key, v, vt);
    } else {
      var (s1, n) := KeyTable(s, i, key).value;
      PromoteFrame(s, i, key, r, vt);
      FillFrame(s1, n, v, |v.entries|, r, vt);
    }
  }

  /** Making the implicit table of a key explicit touches no table that is not under it. */
  lemma PromoteFrame(s: Store, i: nat, key: Key, r: nat, vt: seq<byte> -> nat)
    requires Ok(s, vt) && i < |s.tabs| && key in Keys(s, i) && KeyTable(s, i, key).Some?
    requires r < |s.tabs| && Untouched(s, i, key, r)
    ensures var (s1, n) := KeyTable(s, i, key).value;
      Ok(s1, vt) && |s1.tabs| == |s.tabs| && n < |s1.tabs| && T(s1, r) == T(s, r) && !Under(s1, n, r)
  {
    var (s1, n) := KeyTable(s, i, key).value;
    assert TabOk(s, i);
    KeyTableKeeps(s, i, key, vt);
    UnderSame(s, s1, n, r, vt);
  }

  lemma {:induction false} FillFrame(s: Store, n: nat, v: Inline, m: nat, r: nat, vt: seq<byte> -> nat)
    requires Ok(s, vt) && n < |s.tabs| && v.Entries? && m <= |v.entries| && FillTable(s, n, v, m, vt).Some?
    requires r < |s.tabs| && !Under(s, n, r)
    ensures T(FillTable(s, n, v, m, vt).value, r) == T(s, r)
    decreases v, 0, m
  {
    if m > 0 {
      FillFrame(s, n, v, m - 1, r, vt);
      FillKeeps(s, n, v, m - 1, vt);
      EntryFrame(s, FillTable(s, n, v, m - 1, vt).value, n, v, m - 1, r, vt);
    }
  }

  lemma EntryFrame(s: Store, s1: Store, n: nat, v: Inline, k: nat, r: nat, vt: seq<byte> -> nat)
    requires Ok(s, vt) && n < |s.tabs| && v.Entries? && k < |v.entries| && Stored(s, s1, vt)
    requires r < |s.tabs| && !Under(s, n, r) && AssignEntry(s1, n, v, k, vt).Some?
    ensures T(AssignEntry(s1, n, v, k, vt).value, r) == T(s1, r)
    decreases v, 0, k
  {
    var key := v.entries[k].key;
    UnderSame(s, s1, n, r, vt);
    assert TabOk(s1, n) && Under(s1, n, n);
    if Find(s1, n, key).AtTable? && Under(s1, T(s1, n).tab[Find(s1, n, key).i], r) {
      UnderParent(s1, n, T(s1, n).tab[Find(s1, n, key).i], r);
    }
    AssignFrame(s1, n, key, v.entries[k].val, r, vt);
  }

  /** Nothing changed in table `c` and the tables under it. */
  ghost predicate SameUnder(s: Store, s': Store, c: nat) {
    forall r {:trigger Under(s, c, r)} :: 0 <= r < |s.tabs| && Under(s, c, r) ==> T(s', r) == T(s, r)
  }

  /** What a key accepts depends on where it leads and on the tables under that one. */
  lemma {:induction false} AcceptsSame(s: Store, s': Store, i: nat, key: Key, v: Inline, vt: seq<byte> -> nat)
    requires Ok(s, vt) && Ok(s', vt) && Extends(s, s') && i < |s.tabs| && Find(s', i, key) == Find(s, i, key)
    requires Find(s, i, key).AtTable? ==> SameUnder(s, s', T(s, i).tab[Find(s, i, key).i])
    ensures Accepts(s', i, key, v, vt) == Accepts(s, i, key, v, vt)
    decreases v, 1
  {
    if Find(s, i, key).AtTable? && v.Entries? {
      var c := T(s, i).tab[Find(s, i, key).i];
      assert TabOk(s, i) && TabGrows(T(s, i), T(s', i)) && Under(s, c, c);
      forall k | 0 <= k < |v.entries| ensures AcceptsEntry(s', c, v, k, vt) == AcceptsEntry(s, c, v, k, vt) {
        EntrySame(s, s', c, v, k, vt);
      }
      AllSame(s, s', c, v, |v.entries|, vt);
    }
  }

  lemma AllSame(s: Store, s': Store, c: nat, v: Inline, m: nat, vt: seq<byte> -> nat)
    requires v.Entries? && m <= |v.entries|
    requires forall k :: 0 <= k < m ==> AcceptsEntry(s', c, v, k, vt) == AcceptsEntry(s, c, v, k, vt)
    ensures AcceptsAll(s', c, v, m, vt) == AcceptsAll(s, c, v, m, vt)
  {
  }

  lemma {:induction false} EntrySame(s: Store, s': Store, c: nat, v: Inline, k: nat, vt: seq<byte> -> nat)
    requires Ok(s, vt) && Ok(s', vt) && Extends(s, s') && c < |s.tabs| && SameUnder(s, s', c)
    requires v.Entries? && k < |v.entries|
    ensures AcceptsEntry(s', c, v, k, vt) == AcceptsEntry(s, c, v, k, vt)
    decreases v, 0
  {
    var key := v.entries[k].key;
    assert Under(s, c, c) && TabOk(s, c);
    SameLists(s, s', c, vt);
    if Find(s, c, key).AtTable? {
      ChildSame(s, s', c, T(s, c).tab[Find(s, c, key).i]);
    }
    AcceptsSame(s, s', c, key, v.entries[k].val, vt);
  }

  lemma ChildSame(s: Store, s': Store, c: nat, d: nat)
    requires SameUnder(s, s', c) && T(s, d).up == c && T(s, d).level == T(s, c).level + 1
    ensures SameUnder(s, s', d)
  {
    forall r | 0 <= r < |s.tabs| && Under(s, d, r) ensures T(s', r) == T(s, r) {
      UnderParent(s, c, d, r);
    }
  }

  /** An assignment to one key does not change what another key of the table accepts. */
  lemma OtherKey(s: Store, n: nat, key: Key, v: Inline, q: Key, w: Inline, vt: seq<byte> -> nat)
    requires Ok(s, vt) && n < |s.tabs| && Assign(s, n, key, v, vt).Some? && q != key
    ensures Accepts(Assign(s, n, key, v, vt).value, n, q, w, vt) == Accepts(s, n, q, w, vt)
  {
    var s' := Assign(s, n, key, v, vt).value;
    AssignKeeps(s, n, key, v, vt);
    OtherFound(s, n, key, v, q, vt);
    if Find(s, n, q).AtTable? {
      OtherUnder(s, n, key, v, T(s, n).tab[Find(s, n, q).i], q, vt);
    }
    AcceptsSame(s, s', n, q, w, vt);
  }

  lemma OtherFound(s: Store, n: nat, key: Key, v: Inline, q: Key, vt: seq<byte> -> nat)
    requires Ok(s, vt) && n < |s.tabs| && Assign(s, n, key, v, vt).Some? && q != key
    ensures Find(Assign(s, n, key, v, vt).value, n, q) == Find(s, n, q)
  {
    var s' := Assign(s, n, key, v, vt).value;
    AssignKeeps(s, n, key, v, vt);
    assert TabOk(s, n) && TabOk(s', n);
    if key !in Keys(s, n) {
      AssignNew(s, n, key, v, vt);
      OneMoreKey(KeyLists(s, n), KeyLists(s', n), key);
      if q in Keys(s, n) {
        FoundAgain(s, s', n, q);
      }
    } else {
      OwnerUntouched(s, n, key);
      AssignFrame(s, n, key, v, n, vt);
      SameLists(s, s', n, vt);
    }
  }

  lemma OwnerUntouched(s: Store, n: nat, key: Key)
    requires TabOk(s, n) && key in Keys(s, n)
    ensures Untouched(s, n, key, n)
  {
    if Find(s, n, key).AtTable? {
      var c := T(s, n).tab[Find(s, n, key).i];
      if Under(s, c, n) {
        UnderParent(s, n, c, n);
      }
    }
  }

  lemma OtherUnder(s: Store, n: nat, key: Key, v: Inline, c: nat, q: Key, vt: seq<byte> -> nat)
    requires Ok(s, vt) && n < |s.tabs| && Assign(s, n, key, v, vt).Some? && q != key
    requires Find(s, n, q).AtTable? && c == T(s, n).tab[Find(s, n, q).i]
    ensures SameUnder(s, Assign(s, n, key, v, vt).value, c)
  {
    assert TabOk(s, n);
    forall r | 0 <= r < |s.tabs| && Under(s, c, r) ensures T(Assign(s, n, key, v, vt).value, r) == T(s, r) {
      UnderParent(s, n, c, r);
      if Find(s, n, key).AtTable? {
        var d := T(s, n).tab[Find(s, n, key).i];
        assert T(s, c).key == q && T(s, d).key == key;
        if Under(s, d, r) {
          UnderUnique(s, c, d, r);
        }
      }
      AssignFrame(s, n, key, v, r, vt);
    }
  }

  /** A key that has been assigned accepts nothing more. */
  lemma TakenKey(s: Store, n: nat, key: Key, v: Inline, w: Inline, vt: seq<byte> -> nat)
    requires Ok(s, vt) && n < |s.tabs| && Assign(s, n, key, v, vt).Some?
    ensures !Accepts(Assign(s, n, key, v, vt).value, n, key, w, vt)
  {
    var s' := Assign(s, n, key, v, vt).value;
    AssignKeeps(s, n, key, v, vt);
    if v.Entries? {
      ExplicitNow(s, n, key, v, vt);
    }
  }

  lemma ExplicitNow(s: Store, n: nat, key: Key, v: Inline, vt: seq<byte> -> nat)
    requires Ok(s, vt) && n < |s.tabs| && Assign(s, n, key, v, vt).Some? && v.Entries?
    ensures var s' := Assign(s, n, key, v, vt).value;
      Find(s', n, key).AtTable? && !T(s', T(s', n).tab[Find(s', n, key).i]).implicit
  {
    var (s1, c) := KeyTable(s, n, key).value;
    var s' := Assign(s, n, key, v, vt).value;
    KeyTableKeeps(s, n, key, vt);
    FillKeeps(s1, c, v, |v.entries|, vt);
    NextKept(s1, s', n, key, vt);
    AssignKeeps(s, n, key, v, vt);
    assert TabGrows(T(s1, c), T(s', c));
  }

  // ---- Exactly what is accepted --------------------------------------------------------------------------

  /** After `m` entries, a key accepts what it accepted before, unless it has been given. */
  ghost predicate AfterFill(s: Store, s': Store, n: nat, v: Inline, m: nat, vt: seq<byte> -> nat)
    requires v.Entries? && m <= |v.entries|
  {
    forall q, w {:trigger Accepts(s', n, q, w, vt)} ::
      Accepts(s', n, q, w, vt) <==> !Listed(v.entries, m, q) && Accepts(s, n, q, w, vt)
  }

  lemma {:induction false} AssignExactly(s: Store, i: nat, key: Key, v: Inline, vt: seq<byte> -> nat)
    requires Ok(s, vt) && i < |s.tabs|
    ensures Assign(s, i, key, v, vt).Some? <==> Accepts(s, i, key, v, vt)
    decreases v, 1, 0
  {
    match Find(s, i, key)
    case Absent => AssignNew(s, i, key, v, vt);
    case AtTable(j) =>
      var n := T(s, i).tab[j];
      assert TabOk(s, i);
      if v.Entries? && T(s, n).implicit {
        var s1 := Promote(s, n);
        PromoteKeeps(s, n, vt);
        FillExactly(s1, n, v, |v.entries|, vt);
        forall k | 0 <= k < |v.entries| ensures AcceptsEntry(s1, n, v, k, vt) == AcceptsEntry(s, n, v, k, vt) {
          PromoteSame(s, n, v.entries[k].key, v.entries[k].val, vt);
        }
        AllSame(s, s1, n, v, |v.entries|, vt);
      }
    case _ =>
  }

  /** Making a table explicit does not change what its keys accept. */
  lemma PromoteSame(s: Store, n: nat, q: Key, w: Inline, vt: seq<byte> -> nat)
    requires Ok(s, vt) && n < |s.tabs| && T(s, n).implicit
    ensures Accepts(Promote(s, n), n, q, w, vt) == Accepts(s, n, q, w, vt)
  {
    var s' := Promote(s, n);
    PromoteKeeps(s, n, vt);
    assert TabOk(s, n);
    if Find(s, n, q).AtTable? {
      var c := T(s, n).tab[Find(s, n, q).i];
      forall r | 0 <= r < |s.tabs| && Under(s, c, r) ensures T(s', r) == T(s, r) {
        UnderParent(s, n, c, r);
      }
    }
    AcceptsSame(s, s', n, q, w, vt);
  }

  lemma {:induction false} FillExactly(s: Store, n: nat, v: Inline, m: nat, vt: seq<byte> -> nat)
    requires Ok(s, vt) && n < |s.tabs| && v.Entries? && m <= |v.entries|
    ensures FillTable(s, n, v, m, vt).Some? <==> AcceptsAll(s, n, v, m, vt)
    ensures FillTable(s, n, v, m, vt).Some? ==> AfterFill(s, FillTable(s, n, v, m, vt).value, n, v, m, vt)
    decreases v, 0, m
  {
    if m > 0 {
      FillExactly(s, n, v, m - 1, vt);
      AcceptsAllNext(s, n, v, m - 1, vt);
      if FillTable(s, n, v, m - 1, vt).Some? {
        FillKeeps(s, n, v, m - 1, vt);
        FillExactlyNext(s, FillTable(s, n, v, m - 1, vt).value, n, v, m - 1, vt);
      }
    }
  }

  lemma AcceptsAllNext(s: Store, n: nat, v: Inline, m: nat, vt: seq<byte> -> nat)
    requires v.Entries? && m < |v.entries|
    ensures AcceptsAll(s, n, v, m + 1, vt) <==> AcceptsAll(s, n, v, m, vt) && AcceptsEntry(s, n, v, m, vt)
  {
  }

  lemma FillExactlyNext(s: Store, s1: Store, n: nat, v: Inline, m: nat, vt: seq<byte> -> nat)
    requires Stored(s, s1, vt) && n < |s.tabs| && v.Entries? && m < |v.entries| && AfterFill(s, s1, n, v, m, vt)
    ensures AssignEntry(s1, n, v, m, vt).Some? <==> AcceptsEntry(s, n, v, m, vt)
    ensures AssignEntry(s1, n, v, m, vt).Some? ==>
      AfterFill(s, AssignEntry(s1, n, v, m, vt).value, n, v, m + 1, vt)
    decreases v, 0, m
  {
    var e := v.entries[m];
    AssignExactly(s1, n, e.key, e.val, vt);
    assert NewKey(v.entries, m) <==> !Listed(v.entries, m, e.key);
    if AssignEntry(s1, n, v, m, vt).Some? {
      var s2 := AssignEntry(s1, n, v, m, vt).value;
      forall q, w ensures Accepts(s2, n, q, w, vt) <==> !Listed(v.entries, m + 1, q) && Accepts(s, n, q, w, vt) {
        assert Listed(v.entries, m + 1, q) <==> Listed(v.entries, m, q) || q == e.key;
        if q == e.key {
          TakenKey(s1, n, q, e.val, w, vt);
        } else {
          OtherKey(s1, n, e.key, e.val, q, w, vt);
        }
      }
    }
  }
}
