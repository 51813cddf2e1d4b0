/**
 * Enumerating the groups of the directory: a cursor over the parsed entries that every successful
 * call moves by one.
 */
module Enumeration {
  import opened Bytes
  import opened Members
  import opened Values
  import opened Serializer
  import opened Parser
  import opened DepthLimit
  import opened ParserMethods
  import opened GroupPacking

  // ---- What a call answers -----------------------------------------------------------------------

  /** The room that an entry needs, if it has a name. */
  function Needed(entry: Value): Option<nat> {
    match NameOf(entry)
    case None => None
    case Some(name) => Some(Size(name, UsersOf(entry)))
  }

  function Needs(items: seq<Value>): (r: seq<Option<nat>>)
    ensures |r| == |items|
    ensures forall i :: 0 <= i < |items| ==> r[i] == Needed(items[i])
  {
    seq(|items|, i requires 0 <= i < |items| => Needed(items[i]))
  }

  datatype Reply = Reply(status: Status, errno: Errno, idx: nat)

  /** A call with a buffer of `buflen` bytes, when the cursor is at `idx`. */
  function Next(needs: seq<Option<nat>>, idx: nat, buflen: nat): (r: Reply)
    ensures r.status == Success ==> idx < |needs| && r.idx == idx + 1
    ensures r.status != Success ==> r.idx == idx
  {
    if idx >= |needs| then Reply(NotFound, ENoEnt, idx)
    else
      match needs[idx]
      case None => Reply(NotFound, NoError, idx)
      case Some(n) => if n <= buflen then Reply(Success, NoError, idx + 1) else Reply(TryAgain, ERange, idx)
  }

  /** Where a run of calls leaves the cursor. */
  function After(needs: seq<Option<nat>>, idx: nat, sizes: seq<nat>): nat
    decreases |sizes|
  {
    if |sizes| == 0 then idx else After(needs, Next(needs, idx, sizes[0]).idx, sizes[1..])
  }

  /** The entries, of type `T`, that the successful calls of a run deliver. */
  function Delivered<T>(items: seq<T>, needs: seq<Option<nat>>, idx: nat, sizes: seq<nat>): seq<T>
    requires |items| == |needs|
    decreases |sizes|
  {
    if |sizes| == 0 then []
    else
      var r := Next(needs, idx, sizes[0]);
      (if r.status == Success then [items[idx]] else []) + Delivered(items, needs, r.idx, sizes[1..])
  }

  // ---- Every run -----------------------------------------------------------------------------------

  lemma SliceCons<T>(items: seq<T>, i: nat, end: nat)
    requires i < end <= |items|
    ensures items[i..end] == [items[i]] + items[i + 1..end]
  {
  }

  /** Whatever the sizes, the successes deliver the entries in order, none skipped or repeated. */
  lemma {:induction false} RunDelivers<T>(items: seq<T>, needs: seq<Option<nat>>, idx: nat, sizes: seq<nat>)
    requires idx <= |items| == |needs|
    ensures idx <= After(needs, idx, sizes) <= |items|
    ensures Delivered(items, needs, idx, sizes) == items[idx..After(needs, idx, sizes)]
    decreases |sizes|
  {
    if |sizes| > 0 {
      var r, rest := Next(needs, idx, sizes[0]), sizes[1..];
      RunDelivers(items, needs, r.idx, rest);
      if r.status == Success {
        SliceCons(items, idx, After(needs, r.idx, rest));
      }
    }
  }

  lemma {:induction false} RunAppend(needs: seq<Option<nat>>, idx: nat, sizes: seq<nat>, more: seq<nat>)
    ensures After(needs, idx, sizes + more) == After(needs, After(needs, idx, sizes), more)
    decreases |sizes|
  {
    if |sizes| == 0 {
      assert sizes + more == more;
    } else {
      assert (sizes + more)[1..] == sizes[1..] + more;
      RunAppend(needs, Next(needs, idx, sizes[0]).idx, sizes[1..], more);
    }
  }

  /** A call that is answered with a retry may be left out of a run. */
  lemma RetryChangesNothing<T>(items: seq<T>, needs: seq<Option<nat>>, sizes: seq<nat>, small: nat, more: seq<nat>)
    requires |items| == |needs| && Next(needs, After(needs, 0, sizes), small).status == TryAgain
    ensures Delivered(items, needs, 0, sizes + [small] + more) == Delivered(items, needs, 0, sizes + more)
    ensures After(needs, 0, sizes + [small] + more) == After(needs, 0, sizes + more)
  {
    RunAppend(needs, 0, sizes, [small] + more);
    RunAppend(needs, 0, sizes, more);
    assert sizes + [small] + more == sizes + ([small] + more);
    assert ([small] + more)[1..] == more;
    RunDelivers(items, needs, 0, sizes + [small] + more);
    RunDelivers(items, needs, 0, sizes + more);
  }

  /** Once everything is delivered, every call says so and the cursor stays. */
  lemma EndIsFinal(needs: seq<Option<nat>>, sizes: seq<nat>, buflen: nat)
    requires After(needs, 0, sizes) == |needs|
    ensures Next(needs, After(needs, 0, sizes), buflen) == Reply(NotFound, ENoEnt, |needs|)
    ensures After(needs, 0, sizes + [buflen]) == |needs|
  {
    RunAppend(needs, 0, sizes, [buflen]);
  }

  // ---- When the end is reached ---------------------------------------------------------------------

  function Exact(needs: seq<Option<nat>>): (sizes: seq<nat>)
    ensures |sizes| == |needs|
  {
    seq(|needs|, i requires 0 <= i < |needs| => if needs[i].Some? then needs[i].value else 0)
  }

  lemma {:induction false} ExactBuffersSuffice(needs: seq<Option<nat>>, idx: nat)
    requires idx <= |needs| && forall i :: idx <= i < |needs| ==> needs[i].Some?
    ensures After(needs, idx, Exact(needs)[idx..]) == |needs|
    decreases |needs| - idx
  {
    if idx < |needs| {
      assert Exact(needs)[idx..][1..] == Exact(needs)[idx + 1..];
      ExactBuffersSuffice(needs, idx + 1);
    }
  }

  /** No run passes an entry without a name. */
  lemma {:induction false} NamelessBlocks(needs: seq<Option<nat>>, idx: nat, k: nat, sizes: seq<nat>)
    requires idx <= k < |needs| && needs[k].None?
    ensures After(needs, idx, sizes) <= k
    decreases |sizes|
  {
    if |sizes| > 0 {
      NamelessBlocks(needs, Next(needs, idx, sizes[0]).idx, k, sizes[1..]);
    }
  }

  /** Some run delivers every entry. */
  ghost predicate Complete(items: seq<Value>) {
    exists sizes :: Delivered(items, Needs(items), 0, sizes) == items
  }

  /** Some run delivers every entry if and only if every entry has a name. */
  lemma CompleteExactly(items: seq<Value>)
    ensures Complete(items) <==> forall i :: 0 <= i < |items| ==> NameOf(items[i]).Some?
  {
    var needs := Needs(items);
    if forall i :: 0 <= i < |items| ==> NameOf(items[i]).Some? {
      var sizes := Exact(needs);
      assert sizes[0..] == sizes;
      ExactBuffersSuffice(needs, 0);
      RunDelivers(items, needs, 0, sizes);
      assert items[0..|items|] == items;
    } else {
      var k :| 0 <= k < |items| && NameOf(items[k]).None?;
      forall sizes ensures Delivered(items, needs, 0, sizes) != items {
        RunDelivers(items, needs, 0, sizes);
        NamelessBlocks(needs, 0, k, sizes);
      }
    }
  }

  /** An entry without a name, such as `{}`, at the head of the list: nothing is ever delivered. */
  lemma NamelessFirst(sizes: seq<nat>)
    ensures var items := [Object([])]; Delivered(items, Needs(items), 0, sizes) == [] && !Complete(items)
  {
    var items := [Object([])];
    assert NameOf(items[0]).None?;
    NamelessBlocks(Needs(items), 0, 0, sizes);
    RunDelivers(items, Needs(items), 0, sizes);
    CompleteExactly(items);
  }

  // ---- The cursor ----------------------------------------------------------------------------------

  /** What fetching the entries anew yields. */
  datatype Fetch = Failed(status: Status) | Fetched(data: seq<byte>)

  class Cursor {
    var entries: Option<Value>
    var idx: nat

    constructor ()
      ensures entries == None && idx == 0
    {
      entries, idx := None, 0;
    }

    /** Loads the entries; whatever the cursor was, it is now at the first of them. */
    method SetEnt(data: seq<byte>, hash: CString -> nat) returns (status: Status)
      modifies this
      ensures idx == 0 && entries == ParseText(data)
      ensures status == if ParseText(data).Some? then Success else Unavail
    {
      idx := 0;
      entries := None;
      var root := ParseStringText(data, hash);
      if root.None? {
        return Unavail;
      }
      entries := root;
      return Success;
    }

    method EndEnt() returns (status: Status)
      modifies this
      ensures status == Success && entries == None && idx == 0
    {
      idx := 0;
      entries := None;
      return Success;
    }

    /** The next group. */
    method GetEnt(m: Machine, gidShift: int, rbuf: Group, buf: array<byte>, buflen: nat, base: nat,
        refetch: Fetch, hash: CString -> nat)
      returns (status: Status, errno: Errno)
      requires Sound(m) && buflen <= buf.Length
      modifies this, rbuf, buf
      ensures old(entries.Some? && entries.value.Array?) ==>
        var items := old(entries).value.items;
        && Reply(status, errno, idx) == Next(Needs(items), old(idx), buflen) && entries == old(entries)
        && (status == Success ==>
            && rbuf.gid == gidShift + IdOf(items[old(idx)])
            && rbuf.name == base && rbuf.passwd == base + |Copied(NameOf(items[old(idx)]).value)|
            && rbuf.mem == base + SlotsAt(NameOf(items[old(idx)]).value)
            && Packed(m, buf[..], base, NameOf(items[old(idx)]).value, UsersOf(items[old(idx)])))
      ensures !old(entries.Some? && entries.value.Array?) ==>
        match refetch
        case Failed(s) => status == s && entries == old(entries) && idx == old(idx)
        case Fetched(data) =>
          status == (if ParseText(data).Some? then NotFound else Unavail)
          && entries == ParseText(data) && idx == 0
      ensures forall i :: buflen <= i < buf.Length ==> buf[i] == old(buf[i])
    {
      errno := NoError;
      if entries.None? || !entries.value.Array? {
        // The list stays empty for this call, even when the fetch succeeds.
        match refetch {
          case Failed(s) =>
            return s, NoError;
          case Fetched(data) =>
            status := SetEnt(data, hash);
            if status == Success {
              return NotFound, ENoEnt;
            }
            return;
        }
      }
      var items := entries.value.items;
      if idx >= |items| {
        return NotFound, ENoEnt;
      }
      status, errno := GroupEnsure(m, items[idx], gidShift, rbuf, buf, buflen, base);
      if status == Success {
        idx := idx + 1;
      }
    }
  }

  // ---- From the text to the records ----------------------------------------------------------------

  /** A group as its reader sees it. */
  datatype Record = Record(gid: int, name: CString, password: CString, members: seq<CString>)

  /** A group of the directory: its id, its name and its members in order. */
  datatype GroupData = GroupData(id: int, name: CString, members: seq<CString>)

  function Somes(ss: seq<CString>): (users: seq<Option<CString>>)
    ensures |users| == |ss| && forall i :: 0 <= i < |ss| ==> users[i] == Some(ss[i])
  {
    seq(|ss|, i requires 0 <= i < |ss| => Some(ss[i]))
  }

  lemma StringsOfSomes(ss: seq<CString>)
    ensures Strings(Somes(ss)) == ss
  {
  }

  /** Strings of at most ten mebibytes. */
  ghost predicate OrdinaryStrings(g: GroupData) {
    |g.name| <= 10 * 1024 * 1024 && forall i :: 0 <= i < |g.members| ==> |g.members[i]| <= 10 * 1024 * 1024
  }

  /** The entry says that it is this group; it may have other members besides. */
  ghost predicate Describes(entry: Value, g: GroupData) {
    KeysUnique(entry) && OrdinaryStrings(g) && Says(entry, g.id, Some(g.name), Somes(g.members))
  }

  ghost predicate Describe(items: seq<Value>, gs: seq<GroupData>) {
    |items| == |gs| && forall i :: 0 <= i < |gs| ==> Describes(items[i], gs[i])
  }

  /** The name and the password with terminators, a pointer for each member and one more, the member strings. */
  function BytesFor(g: GroupData): nat {
    |g.name| + 1 + 2 + 8 * (|g.members| + 1) + Lengths(g.members)
  }

  function AllBytes(gs: seq<GroupData>): (needs: seq<Option<nat>>)
    ensures |needs| == |gs| && forall i :: 0 <= i < |gs| ==> needs[i] == Some(BytesFor(gs[i]))
  {
    seq(|gs|, i requires 0 <= i < |gs| => Some(BytesFor(gs[i])))
  }

  function ReadAs(g: GroupData, gidShift: int): Record {
    Record(gidShift + g.id, g.name, [0x78], g.members)
  }

  function AllReadAs(gs: seq<GroupData>, gidShift: int): (rs: seq<Record>)
    ensures |rs| == |gs| && forall i :: 0 <= i < |gs| ==> rs[i] == ReadAs(gs[i], gidShift)
  {
    seq(|gs|, i requires 0 <= i < |gs| => ReadAs(gs[i], gidShift))
  }

  lemma SizeIs(g: GroupData)
    requires OrdinaryStrings(g)
    ensures Size(g.name, Somes(g.members)) == BytesFor(g)
  {
    SizeExactly(g.name, Somes(g.members));
    StringsOfSomes(g.members);
  }

  lemma DescribedFields(entry: Value, g: GroupData)
    requires Describes(entry, g)
    ensures IdOf(entry) == g.id && NameOf(entry) == Some(g.name) && UsersOf(entry) == Somes(g.members)
  {
    SaysExactly(entry, g.id, Some(g.name), Somes(g.members));
  }

  lemma DescribedNeeds(entry: Value, g: GroupData)
    requires Describes(entry, g)
    ensures Needed(entry) == Some(BytesFor(g))
  {
    DescribedFields(entry, g);
    SizeIs(g);
  }

  lemma AllNeeds(items: seq<Value>, gs: seq<GroupData>)
    requires Describe(items, gs)
    ensures Needs(items) == AllBytes(gs)
  {
    forall i | 0 <= i < |gs| ensures Needs(items)[i] == AllBytes(gs)[i] {
      DescribedNeeds(items[i], gs[i]);
    }
  }

  /** At these addresses of a packed buffer there is the group. */
  ghost predicate HoldsRecord(m: Machine, b: seq<byte>, base: nat, name: nat, passwd: nat, mem: nat, r: Record) {
    && StringAt(b, base, name) == Some(r.name) && StringAt(b, base, passwd) == Some(r.password)
    && StringsAt(m, b, base, mem) == Some(r.members)
  }

  /** What the caller reads at the addresses of its record. */
  method ReadAt(m: Machine, b: seq<byte>, base: nat, rbuf: Group, ghost r': Record) returns (r: Record)
    requires rbuf.gid == r'.gid
    requires HoldsRecord(m, b, base, rbuf.name, rbuf.passwd, rbuf.mem, r')
    ensures r == r'
  {
    var name, password := StringAt(b, base, rbuf.name), StringAt(b, base, rbuf.passwd);
    var members := StringsAt(m, b, base, rbuf.mem);
    r := Record(rbuf.gid, name.value, password.value, members.value);
  }

  lemma OrdinaryUsers(g: GroupData)
    requires OrdinaryStrings(g)
    ensures |g.name| <= MAX_FIELD
    ensures forall i :: 0 <= i < |Somes(g.members)| ==>
      Somes(g.members)[i].Some? && |Somes(g.members)[i].value| <= MAX_FIELD
  {
  }

  lemma PackedReads(m: Machine, b: seq<byte>, base: nat, name: CString, users: seq<Option<CString>>, gid: int)
    requires Sound(m) && 0 < base && base + |b| <= ADDRESSES && Packed(m, b, base, name, users)
    requires |name| <= MAX_FIELD && forall i :: 0 <= i < |users| ==> users[i].Some? && |users[i].value| <= MAX_FIELD
    ensures HoldsRecord(m, b, base, base, base + |Copied(name)|, base + SlotsAt(name),
        Record(gid, name, PASSWORD, Strings(users)))
  {
    NamesReadBack(b, base, name, PASSWORD);
    MembersReadBack(m, b, base, SlotsAt(name), users);
  }

  /** From a packed buffer the caller reads the group. */
  method ReadPacked(
      m: Machine, b: seq<byte>, base: nat, rbuf: Group, ghost users: seq<Option<CString>>, ghost r': Record)
    returns (r: Record)
    requires Sound(m) && 0 < base && base + |b| <= ADDRESSES && Packed(m, b, base, r'.name, users)
    requires |r'.name| <= MAX_FIELD && forall i :: 0 <= i < |users| ==> users[i].Some? && |users[i].value| <= MAX_FIELD
    requires Strings(users) == r'.members && r'.password == PASSWORD
    requires rbuf.gid == r'.gid && rbuf.name == base && rbuf.passwd == base + |Copied(r'.name)|
    requires rbuf.mem == base + SlotsAt(r'.name)
    ensures r == r'
  {
    PackedReads(m, b, base, r'.name, users, r'.gid);
    r := ReadAt(m, b, base, rbuf, r');
  }

  /** One call with a fresh buffer of `size` bytes at address `base`. */
  method ReadNext(cursor: Cursor, m: Machine, size: nat, base: nat, gidShift: int, hash: CString -> nat,
      ghost items: seq<Value>, ghost gs: seq<GroupData>)
    returns (got: Option<Record>)
    requires Sound(m) && 0 < base && base + size <= ADDRESSES && Describe(items, gs)
    requires cursor.entries == Some(Array(items))
    modifies cursor
    ensures cursor.entries == Some(Array(items)) && cursor.idx == Next(AllBytes(gs), old(cursor.idx), size).idx
    ensures got.Some? <==> Next(AllBytes(gs), old(cursor.idx), size).status == Success
    ensures got.Some? ==> old(cursor.idx) < |gs| && got.value == ReadAs(gs[old(cursor.idx)], gidShift)
  {
    var buf := new byte[size];
    var rbuf := new Group();
    ghost var i := cursor.idx;
    AllNeeds(items, gs);
    var status, errno := cursor.GetEnt(m, gidShift, rbuf, buf, size, base, Failed(Unavail), hash);
    if status != Success {
      return None;
    }
    ghost var g := gs[i];
    DescribedFields(items[i], g);
    OrdinaryUsers(g);
    StringsOfSomes(g.members);
    var r := ReadPacked(m, buf[..], base, rbuf, Somes(g.members), ReadAs(g, gidShift));
    got := Some(r);
  }

  /**
   * A caller that loads the serialized text of entries that describe some groups, and then asks with
   * buffers of any sizes, reads these groups in their order, each one once, as far as the sizes sufficed.
   */
  method Enumerate(items: seq<Value>, ghost gs: seq<GroupData>, f: Format, m: Machine, sizes: seq<nat>, base: nat,
      gidShift: int, hash: CString -> nat)
    returns (got: seq<Record>)
    requires WellFormed(Array(items)) && Fits(Array(items), MAX_NESTING) && Describe(items, gs)
    requires Sound(m) && 0 < base && forall i :: 0 <= i < |sizes| ==> base + sizes[i] <= ADDRESSES
    ensures var n := After(AllBytes(gs), 0, sizes); n <= |gs| && got == AllReadAs(gs, gidShift)[..n]
  {
    var cursor := new Cursor();
    LoadGroups(cursor, items, f, hash);
    got := AskAll(cursor, m, sizes, base, gidShift, hash, items, gs);
  }

  /** The next call; what it delivers is added to what has been read. */
  method Ask(cursor: Cursor, m: Machine, size: nat, base: nat, gidShift: int, hash: CString -> nat,
      ghost items: seq<Value>, ghost gs: seq<GroupData>, got: seq<Record>)
    returns (got': seq<Record>)
    requires Sound(m) && 0 < base && base + size <= ADDRESSES && Describe(items, gs)
    requires cursor.entries == Some(Array(items)) && cursor.idx <= |gs|
    requires got == AllReadAs(gs, gidShift)[..cursor.idx]
    modifies cursor
    ensures cursor.entries == Some(Array(items)) && cursor.idx == Next(AllBytes(gs), old(cursor.idx), size).idx
    ensures cursor.idx <= |gs| && got' == AllReadAs(gs, gidShift)[..cursor.idx]
  {
    var r := ReadNext(cursor, m, size, base, gidShift, hash, items, gs);
    got' := if r.Some? then got + [r.value] else got;
  }

  method AskAll(cursor: Cursor, m: Machine, sizes: seq<nat>, base: nat, gidShift: int, hash: CString -> nat,
      ghost items: seq<Value>, ghost gs: seq<GroupData>)
    returns (got: seq<Record>)
    requires Sound(m) && 0 < base && Describe(items, gs) && cursor.entries == Some(Array(items)) && cursor.idx == 0
    requires forall i :: 0 <= i < |sizes| ==> base + sizes[i] <= ADDRESSES
    modifies cursor
    ensures var n := After(AllBytes(gs), 0, sizes); n <= |gs| && got == AllReadAs(gs, gidShift)[..n]
  {
    got := [];
    ghost var rest := sizes;
    for i := 0 to |sizes|
      invariant cursor.entries == Some(Array(items)) && rest == sizes[i..]
      invariant cursor.idx <= |gs| && got == AllReadAs(gs, gidShift)[..cursor.idx]
      invariant After(AllBytes(gs), cursor.idx, rest) == After(AllBytes(gs), 0, sizes)
    {
      got := Ask(cursor, m, sizes[i], base, gidShift, hash, items, gs, got);
      rest := rest[1..];
    }
  }

  /** Loads the serialized text of some entries. */
  method LoadGroups(cursor: Cursor, items: seq<Value>, f: Format, hash: CString -> nat)
    requires WellFormed(Array(items)) && Fits(Array(items), MAX_NESTING)
    modifies cursor
    ensures cursor.entries == Some(Array(items)) && cursor.idx == 0
  {
    var text := Serialize(Array(items), 0, f);
    ReadBackExactly(Array(items), f, []);
    assert text + [] == text;
    var _ := cursor.SetEnt(text, hash);
  }
}
