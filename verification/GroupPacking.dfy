/**
 * Packing a group into the buffer of the caller: the name, the password, the area of member
 * pointers and the member strings, one after the other.
 */
module GroupPacking {
  import opened Bytes
  import opened Members
  import opened Values

  const MAX_FIELD: nat := 10 * 1024 * 1024
  const SLOT_SIZE: nat := 8
  const PASSWORD: CString := [0x78]

  datatype Status = Success | NotFound | TryAgain | Unavail
  datatype Errno = NoError | ERange | ENoEnt

  // ---- The entry ---------------------------------------------------------------------------------

  const KEY_ID: CString := [0x69, 0x64]
  const KEY_NAME: CString := [0x6E, 0x61, 0x6D, 0x65]
  const KEY_USERS: CString := [0x75, 0x73, 0x65, 0x72, 0x73]

  /** The value of a key; nothing when the entry is not an object. */
  function Field(entry: Value, key: CString): Option<Value> {
    if entry.Object? then Lookup(entry.members, key) else None
  }

  function StringOf(v: Option<Value>): Option<CString> {
    if v.Some? && v.value.String? then Some(CStr(v.value.s)) else None
  }

  function NameOf(entry: Value): Option<CString> {
    StringOf(Field(entry, KEY_NAME))
  }

  function IdOf(entry: Value): int {
    var v := Field(entry, KEY_ID);
    if v.Some? && v.value.Number? then v.value.n else 0
  }

  /** The members; `None` stands for an element that is not a string. */
  function UsersOf(entry: Value): seq<Option<CString>> {
    var v := Field(entry, KEY_USERS);
    if v.Some? && v.value.Array? then
      var items := v.value.items;
      seq(|items|, i requires 0 <= i < |items| => StringOf(Some(items[i])))
    else []
  }

  // ---- What an entry says, without looking anything up -------------------------------------------

  /** Some member of an object has this key and this value. */
  ghost predicate Has(entry: Value, key: seq<byte>, v: Value) {
    entry.Object? && exists i :: 0 <= i < |entry.members| && entry.members[i].key == key && entry.members[i].value == v
  }

  /** A string stands for a C string: all of it, or what precedes its first NUL. */
  ghost predicate Spells(v: Value, s: CString) {
    v.String? && (v.s == s || s + [0] <= v.s)
  }

  /** A missing number reads as zero. */
  ghost predicate SaysId(entry: Value, id: int) {
    Has(entry, Ascii("id"), Number(id)) || (id == 0 && forall n :: !Has(entry, Ascii("id"), Number(n)))
  }

  ghost predicate SaysString(v: Value, s: Option<CString>) {
    if s.Some? then Spells(v, s.value) else !v.String?
  }

  ghost predicate SaysName(entry: Value, name: Option<CString>) {
    (exists v :: Has(entry, Ascii("name"), v) && SaysString(v, name))
    || (name.None? && forall v :: !Has(entry, Ascii("name"), v))
  }

  ghost predicate SaysUsers(entry: Value, users: seq<Option<CString>>) {
    (exists items: seq<Value> :: Has(entry, Ascii("users"), Array(items)) && SayStrings(items, users))
    || (users == [] && forall items: seq<Value> :: !Has(entry, Ascii("users"), Array(items)))
  }

  /** One after the other, in their order. */
  ghost predicate SayStrings(items: seq<Value>, users: seq<Option<CString>>) {
    |items| == |users| && forall i :: 0 <= i < |items| ==> SaysString(items[i], users[i])
  }

  ghost predicate Says(entry: Value, id: int, name: Option<CString>, users: seq<Option<CString>>) {
    SaysId(entry, id) && SaysName(entry, name) && SaysUsers(entry, users)
  }

  ghost predicate KeysUnique(entry: Value) {
    entry.Object? ==> Unique(entry.members)
  }

  lemma FieldExactly(entry: Value, key: CString, v: Value)
    requires KeysUnique(entry)
    ensures Has(entry, key, v) <==> Field(entry, key) == Some(v)
  {
    if Has(entry, key, v) {
      var i :| 0 <= i < |entry.members| && entry.members[i].key == key && entry.members[i].value == v;
      LookupUnique(entry.members, i);
    }
  }

  lemma {:induction false} CStrExactly(t: seq<byte>, s: CString)
    ensures CStr(t) == s <==> t == s || s + [0] <= t
  {
    if |t| > 0 && t[0] != 0 && |s| > 0 {
      CStrExactly(t[1..], s[1..]);
      assert t == [t[0]] + t[1..] && s == [s[0]] + s[1..];
      assert s + [0] == [s[0]] + (s[1..] + [0]);
    }
  }

  lemma StringExactly(v: Value, s: Option<CString>)
    ensures SaysString(v, s) <==> StringOf(Some(v)) == s
  {
    if v.String? && s.Some? {
      CStrExactly(v.s, s.value);
    }
  }

  lemma IdExactly(entry: Value, id: int)
    requires KeysUnique(entry)
    ensures SaysId(entry, id) <==> IdOf(entry) == id
  {
    assert Ascii("id") == KEY_ID;
    forall n ensures Has(entry, KEY_ID, Number(n)) <==> Field(entry, KEY_ID) == Some(Number(n)) {
      FieldExactly(entry, KEY_ID, Number(n));
    }
  }

  lemma NameExactly(entry: Value, name: Option<CString>)
    requires KeysUnique(entry)
    ensures SaysName(entry, name) <==> NameOf(entry) == name
  {
    assert Ascii("name") == KEY_NAME;
    forall v ensures Has(entry, KEY_NAME, v) <==> Field(entry, KEY_NAME) == Some(v) {
      FieldExactly(entry, KEY_NAME, v);
    }
    var field := Field(entry, KEY_NAME);
    if field.Some? {
      assert Has(entry, KEY_NAME, field.value);
      StringExactly(field.value, name);
    }
  }

  lemma UsersExactly(entry: Value, users: seq<Option<CString>>)
    requires KeysUnique(entry)
    ensures SaysUsers(entry, users) <==> UsersOf(entry) == users
  {
    assert Ascii("users") == KEY_USERS;
    forall v ensures Has(entry, KEY_USERS, v) <==> Field(entry, KEY_USERS) == Some(v) {
      FieldExactly(entry, KEY_USERS, v);
    }
    var field := Field(entry, KEY_USERS);
    if field.Some? && field.value.Array? {
      var items := field.value.items;
      assert Has(entry, KEY_USERS, Array(items));
      assert SaysUsers(entry, users) <==> SayStrings(items, users);
      StringsExactly(items, users);
    }
  }

  lemma StringsExactly(items: seq<Value>, users: seq<Option<CString>>)
    ensures SayStrings(items, users) <==>
      seq(|items|, i requires 0 <= i < |items| => StringOf(Some(items[i]))) == users
  {
    if |items| == |users| {
      forall i | 0 <= i < |items| ensures SaysString(items[i], users[i]) <==> StringOf(Some(items[i])) == users[i] {
        StringExactly(items[i], users[i]);
      }
    }
  }

  /** The fields that are looked up are exactly what the members of the entry say. */
  lemma SaysExactly(entry: Value, id: int, name: Option<CString>, users: seq<Option<CString>>)
    requires KeysUnique(entry)
    ensures Says(entry, id, name, users) <==> (IdOf(entry), NameOf(entry), UsersOf(entry)) == (id, name, users)
  {
    IdExactly(entry, id);
    NameExactly(entry, name);
    UsersExactly(entry, users);
  }

  // ---- Sizes and offsets -------------------------------------------------------------------------

  /** The bytes that a bounded copy of a string writes; only a short string gets its terminator. */
  function Copied(s: CString): (r: seq<byte>)
    ensures 0 < |r| == (if |s| <= MAX_FIELD then |s| else MAX_FIELD) + 1
    ensures |s| <= MAX_FIELD ==> r == s + [0]
  {
    (s + [0])[..(if |s| <= MAX_FIELD then |s| else MAX_FIELD) + 1]
  }

  function Room(u: Option<CString>): nat {
    if u.Some? then |Copied(u.value)| else 0
  }

  function RoomOf(users: seq<Option<CString>>, n: nat): nat
    requires n <= |users|
  {
    if n == 0 then 0 else RoomOf(users, n - 1) + Room(users[n - 1])
  }

  /** Where the pointer area begins. */
  function SlotsAt(name: CString): nat {
    |Copied(name)| + |Copied(PASSWORD)|
  }

  function SlotAt(slots: nat, j: nat): nat {
    slots + SLOT_SIZE * j
  }

  /** Where the string of member `j` begins. */
  function MemberAt(slots: nat, users: seq<Option<CString>>, j: nat): nat
    requires j <= |users|
  {
    SlotAt(slots, |users| + 1) + RoomOf(users, j)
  }

  /** The bytes that a group takes. */
  function Size(name: CString, users: seq<Option<CString>>): nat {
    MemberAt(SlotsAt(name), users, |users|)
  }

  lemma {:induction false} RoomGrows(users: seq<Option<CString>>, m: nat, n: nat)
    requires m <= n <= |users|
    ensures RoomOf(users, m) <= RoomOf(users, n)
    ensures m < n ==> RoomOf(users, m) + Room(users[m]) <= RoomOf(users, n)
  {
    if m < n {
      RoomGrows(users, m, n - 1);
    }
  }

  lemma MembersGrow(slots: nat, users: seq<Option<CString>>, n: nat)
    requires n <= |users|
    ensures MemberAt(slots, users, n) <= MemberAt(slots, users, |users|)
  {
    RoomGrows(users, n, |users|);
  }

  // ---- Pointers in memory ------------------------------------------------------------------------

  function Pow256(n: nat): nat {
    if n == 0 then 1 else 256 * Pow256(n - 1)
  }

  /** An address as `n` bytes, the least significant first. */
  function Encode(a: nat, n: nat): (r: seq<byte>)
    ensures |r| == n
  {
    if n == 0 then [] else [a % 256] + Encode(a / 256, n - 1)
  }

  function Decode(s: seq<byte>): nat {
    if |s| == 0 then 0 else s[0] + 256 * Decode(s[1..])
  }

  lemma {:induction false} AddressRoundTrip(a: nat, n: nat)
    requires a < Pow256(n)
    ensures Decode(Encode(a, n)) == a
  {
    if n > 0 {
      AddressRoundTrip(a / 256, n - 1);
      assert Encode(a, n)[1..] == Encode(a / 256, n - 1);
    }
  }

  const ADDRESSES: nat := 0x1_0000_0000_0000_0000

  /** How a machine stores a pointer; the byte order does not matter. */
  datatype Machine = Machine(enc: nat -> seq<byte>, dec: seq<byte> -> nat)

  ghost predicate Sound(m: Machine) {
    forall a: nat :: |m.enc(a)| == SLOT_SIZE && (a < ADDRESSES ==> m.dec(m.enc(a)) == a)
  }

  lemma LittleEndianSound()
    ensures Sound(Machine((a: nat) => Encode(a, SLOT_SIZE), (s: seq<byte>) => Decode(s)))
  {
    assert Pow256(SLOT_SIZE) == ADDRESSES;
    forall a: nat | a < ADDRESSES ensures Decode(Encode(a, SLOT_SIZE)) == a {
      AddressRoundTrip(a, SLOT_SIZE);
    }
  }

  // ---- Regions of the buffer ---------------------------------------------------------------------

  /** The bytes from `p` on are those of `x`. */
  ghost predicate Region(b: seq<byte>, p: nat, x: seq<byte>) {
    p + |x| <= |b| && b[p..p + |x|] == x
  }

  /** Only the bytes from `p` to `q` may differ. */
  ghost predicate SameOutside(b: seq<byte>, c: seq<byte>, p: nat, q: nat) {
    |b| == |c| && forall i :: 0 <= i < |b| && !(p <= i < q) ==> b[i] == c[i]
  }

  lemma RegionKept(b: seq<byte>, c: seq<byte>, p: nat, q: nat, r: nat, x: seq<byte>)
    requires SameOutside(b, c, p, q) && Region(b, r, x)
    requires r + |x| <= p || q <= r
    ensures Region(c, r, x)
  {
    var was, now := b[r..r + |x|], c[r..r + |x|];
    assert forall i :: 0 <= i < |x| ==> now[i] == was[i];
  }

  // ---- Packing -----------------------------------------------------------------------------------

  class Group {
    var gid: int
    var name: nat
    var passwd: nat
    var mem: nat

    constructor ()
      ensures gid == 0 && name == 0 && passwd == 0 && mem == 0
    {
      gid, name, passwd, mem := 0, 0, 0, 0;
    }
  }

  method WriteBytes(buf: array<byte>, p: nat, x: seq<byte>)
    requires p + |x| <= buf.Length
    modifies buf
    ensures Region(buf[..], p, x) && SameOutside(old(buf[..]), buf[..], p, p + |x|)
  {
    for i := 0 to |x|
      invariant forall j :: 0 <= j < i ==> buf[p + j] == x[j]
      invariant forall j :: 0 <= j < buf.Length && !(p <= j < p + i) ==> buf[j] == old(buf[j])
    {
      buf[p + i] := x[i];
    }
  }

  /** What the buffer holds of the first `n` members: a pointer and a string each. */
  ghost predicate MembersIn(m: Machine, b: seq<byte>, base: nat, first: nat, users: seq<Option<CString>>, n: nat)
    requires n <= |users|
  {
    forall j :: 0 <= j < n && users[j].Some? ==>
      && Region(b, SlotAt(first, j), m.enc(base + MemberAt(first, users, j)))
      && Region(b, MemberAt(first, users, j), Copied(users[j].value))
  }

  /** Everything that a successful call leaves in the buffer. */
  ghost predicate Packed(m: Machine, b: seq<byte>, base: nat, name: CString, users: seq<Option<CString>>) {
    && Region(b, 0, Copied(name)) && Region(b, |Copied(name)|, Copied(PASSWORD))
    && MembersIn(m, b, base, SlotsAt(name), users, |users|)
    && Region(b, SlotAt(SlotsAt(name), |users|), m.enc(0))
  }

  lemma MembersKept(m: Machine, b: seq<byte>, c: seq<byte>, base: nat, first: nat, users: seq<Option<CString>>,
      n: nat, p: nat, q: nat)
    requires Sound(m)
    requires n <= |users| && MembersIn(m, b, base, first, users, n) && SameOutside(b, c, p, q)
    requires SlotAt(first, n) <= p && (q <= SlotAt(first, |users| + 1) || MemberAt(first, users, n) <= p)
    ensures MembersIn(m, c, base, first, users, n)
  {
    forall j | 0 <= j < n && users[j].Some?
      ensures Region(c, SlotAt(first, j), m.enc(base + MemberAt(first, users, j)))
      ensures Region(c, MemberAt(first, users, j), Copied(users[j].value))
    {
      RoomGrows(users, j, n);
      RegionKept(b, c, p, q, SlotAt(first, j), m.enc(base + MemberAt(first, users, j)));
      RegionKept(b, c, p, q, MemberAt(first, users, j), Copied(users[j].value));
    }
  }

  lemma MemberAdded(m: Machine, b0: seq<byte>, b1: seq<byte>, b2: seq<byte>, base: nat, first: nat,
      users: seq<Option<CString>>, j: nat)
    requires Sound(m) && j < |users| && users[j].Some? && MembersIn(m, b0, base, first, users, j)
    requires var next := MemberAt(first, users, j);
      && Region(b1, next, Copied(users[j].value)) && SameOutside(b0, b1, next, next + |Copied(users[j].value)|)
      && Region(b2, SlotAt(first, j), m.enc(base + next)) && SameOutside(b1, b2, SlotAt(first, j), SlotAt(first, j + 1))
    ensures MembersIn(m, b2, base, first, users, j + 1)
  {
    var next, user := MemberAt(first, users, j), users[j].value;
    MembersKept(m, b0, b1, base, first, users, j, next, next + |Copied(user)|);
    MembersKept(m, b1, b2, base, first, users, j, SlotAt(first, j), SlotAt(first, j + 1));
    RegionKept(b1, b2, SlotAt(first, j), SlotAt(first, j + 1), next, Copied(user));
  }

  /** One member: its string, then the pointer to it. */
  method PackMember(m: Machine, buf: array<byte>, base: nat, first: nat, ghost users: seq<Option<CString>>,
      j: nat, user: CString, next: nat)
    requires Sound(m)
    requires j < |users| && users[j] == Some(user) && MemberAt(first, users, j + 1) <= buf.Length
    requires next == MemberAt(first, users, j)
    requires MembersIn(m, buf[..], base, first, users, j)
    modifies buf
    ensures MembersIn(m, buf[..], base, first, users, j + 1)
    ensures forall i ::
      0 <= i < buf.Length
      && !(SlotAt(first, j) <= i < SlotAt(first, j + 1)) && !(next <= i < next + Room(users[j]))
      ==> buf[i] == old(buf[i])
  {
    ghost var b0 := buf[..];
    WriteBytes(buf, next, Copied(user));
    ghost var b1 := buf[..];
    WriteBytes(buf, SlotAt(first, j), m.enc(base + next));
    MemberAdded(m, b0, b1, buf[..], base, first, users, j);
  }

  /**
   * The buffer `b` after the first `n` members, when it was `b0` before: the other slots, those of
   * members that are not strings, and the bytes outside of the caller's buffer are as they were.
   */
  ghost predicate Progress(m: Machine, b0: seq<byte>, b: seq<byte>, base: nat, first: nat,
      users: seq<Option<CString>>, n: nat, buflen: nat)
    requires n <= |users|
  {
    && |b| == |b0|
    && MembersIn(m, b, base, first, users, n)
    && (forall k :: 0 <= k < |b| && !(first <= k < buflen) ==> b[k] == b0[k])
    && (forall k :: SlotAt(first, n) <= k < SlotAt(first, |users| + 1) && k < |b| ==> b[k] == b0[k])
    && (forall j :: 0 <= j < n && users[j].None? ==> SameSlot(b0, b, SlotAt(first, j)))
  }

  ghost predicate SameSlot(b0: seq<byte>, b: seq<byte>, p: nat) {
    forall k :: p <= k < p + SLOT_SIZE && k < |b| && k < |b0| ==> b[k] == b0[k]
  }

  lemma ProgressNext(m: Machine, b0: seq<byte>, b: seq<byte>, c: seq<byte>, base: nat, first: nat,
      users: seq<Option<CString>>, n: nat, buflen: nat)
    requires Sound(m)
    requires n < |users| && users[n].Some? && MemberAt(first, users, n + 1) <= buflen
    requires Progress(m, b0, b, base, first, users, n, buflen) && |c| == |b| &&
      MembersIn(m, c, base, first, users, n + 1)
    requires forall i ::
      0 <= i < |b| && !(SlotAt(first, n) <= i < SlotAt(first, n + 1))
      && !(MemberAt(first, users, n) <= i < MemberAt(first, users, n + 1))
      ==> c[i] == b[i]
    ensures Progress(m, b0, c, base, first, users, n + 1, buflen)
  {
  }

  lemma ProgressSkip(m: Machine, b0: seq<byte>, b: seq<byte>, base: nat, first: nat,
      users: seq<Option<CString>>, n: nat, buflen: nat)
    requires Sound(m)
    requires n < |users| && users[n].None? && Progress(m, b0, b, base, first, users, n, buflen)
    ensures Progress(m, b0, b, base, first, users, n + 1, buflen)
  {
  }

  /** The next member, if it is a string and the buffer has room for it. */
  method PackNext(m: Machine, buf: array<byte>, buflen: nat, base: nat, first: nat,
      users: seq<Option<CString>>, i: nat, next: nat, ghost b0: seq<byte>) returns (ok: bool, after: nat)
    requires Sound(m)
    requires i < |users| && next == MemberAt(first, users, i) <= buflen <= buf.Length
    requires Progress(m, b0, buf[..], base, first, users, i, buflen)
    modifies buf
    ensures ok <==> MemberAt(first, users, i + 1) <= buflen
    ensures ok ==> after == MemberAt(first, users, i + 1) && Progress(m, b0, buf[..], base, first, users, i + 1, buflen)
    ensures !ok ==> buf[..] == old(buf[..])
  {
    if users[i].None? {
      ProgressSkip(m, b0, buf[..], base, first, users, i, buflen);
      return true, next;
    }
    var user := users[i].value;
    if buflen - next < |Copied(user)| {
      return false, next;
    }
    ghost var b := buf[..];
    PackMember(m, buf, base, first, users, i, user, next);
    ProgressNext(m, b0, b, buf[..], base, first, users, i, buflen);
    return true, next + |Copied(user)|;
  }

  /** The members, as far as the buffer has room for them. */
  method PackMembers(m: Machine, buf: array<byte>, buflen: nat, base: nat, first: nat,
      users: seq<Option<CString>>) returns (ok: bool)
    requires Sound(m)
    requires SlotAt(first, |users| + 1) <= buflen <= buf.Length
    modifies buf
    ensures ok <==> MemberAt(first, users, |users|) <= buflen
    ensures ok ==> Progress(m, old(buf[..]), buf[..], base, first, users, |users|, buflen)
    ensures forall i :: 0 <= i < buf.Length && !(first <= i < buflen) ==> buf[i] == old(buf[i])
  {
    var next := first + SLOT_SIZE * (|users| + 1);
    ghost var b0 := buf[..];
    for i := 0 to |users|
      invariant next == MemberAt(first, users, i) <= buflen
      invariant Progress(m, b0, buf[..], base, first, users, i, buflen)
    {
      MembersGrow(first, users, i + 1);
      ok, next := PackNext(m, buf, buflen, base, first, users, i, next, b0);
      if !ok {
        return;
      }
    }
    ok := true;
  }

  /** Copies an attribute, unless it does not fit; the cursor moves behind it. */
  method SetAttribute(buf: array<byte>, buflen: nat, p: nat, s: CString) returns (ok: bool, q: nat)
    requires p <= buflen <= buf.Length
    modifies buf
    ensures ok <==> p + |Copied(s)| <= buflen
    ensures q == if ok then p + |Copied(s)| else p
    ensures ok ==> Region(buf[..], p, Copied(s))
    ensures SameOutside(old(buf[..]), buf[..], p, q)
  {
    if buflen - p < |Copied(s)| {
      return false, p;
    }
    WriteBytes(buf, p, Copied(s));
    return true, p + |Copied(s)|;
  }

  /** The pointer area with its final NULL, and the member strings. */
  method PackArea(m: Machine, buf: array<byte>, buflen: nat, base: nat, first: nat,
      users: seq<Option<CString>>) returns (ok: bool)
    requires Sound(m)
    requires first <= buflen <= buf.Length
    modifies buf
    ensures ok <==> MemberAt(first, users, |users|) <= buflen
    ensures ok ==>
      MembersIn(m, buf[..], base, first, users, |users|) && Region(buf[..], SlotAt(first, |users|), m.enc(0))
    ensures ok ==> forall j :: 0 <= j < |users| && users[j].None? ==> SameSlot(old(buf[..]), buf[..], SlotAt(first, j))
    ensures forall i :: 0 <= i < buf.Length && !(first <= i < buflen) ==> buf[i] == old(buf[i])
  {
    if buflen - first < SLOT_SIZE * (|users| + 1) {
      return false;
    }
    ok := PackMembers(m, buf, buflen, base, first, users);
    if ok {
      ghost var b := buf[..];
      var last := SlotAt(first, |users|);
      WriteBytes(buf, last, m.enc(0));
      MembersKept(m, b, buf[..], base, first, users, |users|, last, last + SLOT_SIZE);
    }
  }

  /** The name and the password; `p` is where they end. */
  method PackNames(buf: array<byte>, buflen: nat, name: CString) returns (ok: bool, p: nat)
    requires buflen <= buf.Length
    modifies buf
    ensures ok <==> SlotsAt(name) <= buflen
    ensures ok ==>
      p == SlotsAt(name) && Region(buf[..], 0, Copied(name)) && Region(buf[..], |Copied(name)|, Copied(PASSWORD))
    ensures forall i :: buflen <= i < buf.Length || (ok && SlotsAt(name) <= i < buf.Length) ==> buf[i] == old(buf[i])
  {
    ok, p := SetAttribute(buf, buflen, 0, name);
    if ok {
      ghost var b := buf[..];
      ok, p := SetAttribute(buf, buflen, p, PASSWORD);
      RegionKept(b, buf[..], |Copied(name)|, p, 0, Copied(name));
    }
  }

  /** A group of the directory, in the caller's record and buffer. */
  method GroupEnsure(m: Machine, entry: Value, gidShift: int, rbuf: Group, buf: array<byte>, buflen: nat,
      base: nat) returns (status: Status, errno: Errno)
    requires Sound(m)
    requires buflen <= buf.Length
    modifies rbuf, buf
    ensures NameOf(entry).None? ==> status == NotFound && errno == NoError && unchanged(rbuf) && buf[..] == old(buf[..])
    ensures NameOf(entry).Some? ==>
      if Size(NameOf(entry).value, UsersOf(entry)) <= buflen
      then status == Success && errno == NoError
      else status == TryAgain && errno == ERange
    ensures status == Success ==>
      var name, users := NameOf(entry).value, UsersOf(entry);
      && rbuf.gid == gidShift + IdOf(entry)
      && rbuf.name == base && rbuf.passwd == base + |Copied(name)| && rbuf.mem == base + SlotsAt(name)
      && Packed(m, buf[..], base, name, users)
      && (forall j :: 0 <= j < |users| && users[j].None? ==> SameSlot(old(buf[..]), buf[..], SlotAt(SlotsAt(name), j)))
    ensures forall i :: buflen <= i < buf.Length ==> buf[i] == old(buf[i])
  {
    errno := NoError;
    var found, users := NameOf(entry), UsersOf(entry);
    if found.None? {
      return NotFound, NoError;
    }
    var name := found.value;
    rbuf.gid := gidShift + IdOf(entry);
    var ok, p := PackNames(buf, buflen, name);
    if !ok {
      return TryAgain, ERange;
    }
    ghost var b := buf[..];
    rbuf.name, rbuf.passwd, rbuf.mem := base, base + |Copied(name)|, base + p;
    ok := PackArea(m, buf, buflen, base, p, users);
    if !ok {
      return TryAgain, ERange;
    }
    RegionKept(b, buf[..], p, buflen, 0, Copied(name));
    RegionKept(b, buf[..], p, buflen, |Copied(name)|, Copied(PASSWORD));
    status := Success;
  }

  // ---- Reading the record back -------------------------------------------------------------------

  /** The C string at an address of the buffer. */
  function StringAt(b: seq<byte>, base: nat, a: nat): (r: Option<CString>) {
    if base <= a < base + |b| && |CStr(b[a - base..])| < |b| - (a - base) then Some(CStr(b[a - base..])) else None
  }

  /** The strings of a list of pointers that a NULL pointer ends. */
  function StringsAt(m: Machine, b: seq<byte>, base: nat, a: nat): (r: Option<seq<CString>>)
    decreases base + |b| - a
  {
    if !(base <= a && a + SLOT_SIZE <= base + |b|) then None
    else
      var p := m.dec(b[a - base..a - base + SLOT_SIZE]);
      if p == 0 then Some([])
      else
        match (StringAt(b, base, p), StringsAt(m, b, base, a + SLOT_SIZE))
        case (Some(s), Some(rest)) => Some([s] + rest)
        case _ => None
  }

  lemma {:induction false} CStrTerminated(s: CString, more: seq<byte>)
    ensures CStr(s + [0] + more) == s
  {
    var t := s + [0] + more;
    if |s| > 0 {
      assert t[0] == s[0] && t[1..] == s[1..] + [0] + more;
      CStrTerminated(s[1..], more);
    }
  }

  lemma StringInRegion(b: seq<byte>, base: nat, p: nat, s: CString)
    requires |s| <= MAX_FIELD && Region(b, p, Copied(s))
    ensures StringAt(b, base, base + p) == Some(s)
  {
    var x := s + [0];
    assert b[p..] == s + [0] + b[p + |x|..] by {
      assert b[p..] == b[p..p + |x|] + b[p + |x|..];
    }
    CStrTerminated(s, b[p + |x|..]);
  }

  function Strings(users: seq<Option<CString>>): seq<CString>
    requires forall j :: 0 <= j < |users| ==> users[j].Some?
  {
    seq(|users|, j requires 0 <= j < |users| => users[j].value)
  }

  /** One pointer of a list. */
  lemma SlotStep(m: Machine, b: seq<byte>, base: nat, p: nat, a: nat)
    requires Sound(m) && a < ADDRESSES && Region(b, p, m.enc(a))
    ensures a == 0 ==> StringsAt(m, b, base, base + p) == Some([])
    ensures
      var tail := StringsAt(m, b, base, base + p + SLOT_SIZE);
      a != 0 && StringAt(b, base, a).Some? && tail.Some? ==>
        StringsAt(m, b, base, base + p) == Some([StringAt(b, base, a).value] + tail.value)
  {
  }

  lemma StringStep(m: Machine, b: seq<byte>, base: nat, p: nat, at: nat, user: CString)
    requires Sound(m)
    requires 0 < base && base + |b| <= ADDRESSES && |user| <= MAX_FIELD
    requires Region(b, p, m.enc(base + at)) && Region(b, at, Copied(user))
    ensures StringsAt(m, b, base, base + p + SLOT_SIZE).Some? ==>
      StringsAt(m, b, base, base + p) == Some([user] + StringsAt(m, b, base, base + p + SLOT_SIZE).value)
  {
    StringInRegion(b, base, at, user);
    SlotStep(m, b, base, p, base + at);
  }

  lemma MemberStep(m: Machine, b: seq<byte>, base: nat, first: nat, users: seq<Option<CString>>, j: nat)
    requires Sound(m)
    requires 0 < base && base + |b| <= ADDRESSES && j < |users| && MembersIn(m, b, base, first, users, |users|)
    requires users[j].Some? && |users[j].value| <= MAX_FIELD
    ensures StringsAt(m, b, base, base + SlotAt(first, j + 1)).Some? ==>
      StringsAt(m, b, base, base + SlotAt(first, j)) ==
        Some([users[j].value] + StringsAt(m, b, base, base + SlotAt(first, j + 1)).value)
  {
    StringStep(m, b, base, SlotAt(first, j), MemberAt(first, users, j), users[j].value);
  }

  /** The list `i` has one string more than the next one. */
  ghost predicate Conses(lists: seq<Option<seq<CString>>>, users: seq<Option<CString>>, i: nat)
    requires i < |users| && |lists| == |users| + 1 && users[i].Some?
  {
    lists[i + 1].Some? ==> lists[i] == Some([users[i].value] + lists[i + 1].value)
  }

  lemma {:induction false} ListFrom(lists: seq<Option<seq<CString>>>, users: seq<Option<CString>>, j: nat)
    requires |lists| == |users| + 1 && j <= |users| && lists[|users|] == Some([])
    requires forall i :: 0 <= i < |users| ==> users[i].Some?
    requires forall i :: 0 <= i < |users| ==> Conses(lists, users, i)
    ensures lists[j] == Some(Strings(users)[j..])
    decreases |users| - j
  {
    if j < |users| {
      ListFrom(lists, users, j + 1);
      assert Conses(lists, users, j);
      assert [users[j].value] + Strings(users)[j + 1..] == Strings(users)[j..];
    }
  }

  lemma AllOfList(lists: seq<Option<seq<CString>>>, users: seq<Option<CString>>)
    requires |lists| == |users| + 1 && lists[|users|] == Some([])
    requires forall i :: 0 <= i < |users| ==> users[i].Some?
    requires forall i :: 0 <= i < |users| ==> Conses(lists, users, i)
    ensures lists[0] == Some(Strings(users))
  {
    ListFrom(lists, users, 0);
    assert Strings(users)[0..] == Strings(users);
  }

  /** The lists that start at each slot of a pointer area. */
  function ListsAt(m: Machine, b: seq<byte>, base: nat, first: nat, n: nat): (lists: seq<Option<seq<CString>>>)
    ensures |lists| == n + 1
    ensures forall j :: 0 <= j <= n ==> lists[j] == StringsAt(m, b, base, base + SlotAt(first, j))
  {
    seq(n + 1, j requires 0 <= j <= n => StringsAt(m, b, base, base + SlotAt(first, j)))
  }

  lemma ListsStep(
      m: Machine, b: seq<byte>, base: nat, first: nat, users: seq<Option<CString>>, n: nat,
      lists: seq<Option<seq<CString>>>, i: nat)
    requires Sound(m) && i < n <= |users| && lists == ListsAt(m, b, base, first, n)
    requires 0 < base && base + |b| <= ADDRESSES && MembersIn(m, b, base, first, users, |users|)
    requires forall k :: 0 <= k < n ==> users[k].Some? && |users[k].value| <= MAX_FIELD
    ensures Conses(lists, users[..n], i)
  {
    MemberStep(m, b, base, first, users, i);
    assert lists[i] == StringsAt(m, b, base, base + SlotAt(first, i));
    assert lists[i + 1] == StringsAt(m, b, base, base + SlotAt(first, i + 1));
  }

  lemma ListEnds(m: Machine, b: seq<byte>, base: nat, p: nat)
    requires Sound(m) && Region(b, p, m.enc(0))
    ensures StringsAt(m, b, base, base + p) == Some([])
  {
    SlotStep(m, b, base, p, 0);
  }

  lemma ListsChain(
      m: Machine, b: seq<byte>, base: nat, first: nat, users: seq<Option<CString>>, n: nat,
      lists: seq<Option<seq<CString>>>)
    requires Sound(m) && n <= |users| && lists == ListsAt(m, b, base, first, n)
    requires 0 < base && base + |b| <= ADDRESSES && MembersIn(m, b, base, first, users, |users|)
    requires forall k :: 0 <= k < n ==> users[k].Some? && |users[k].value| <= MAX_FIELD
    ensures forall i :: 0 <= i < n ==> Conses(lists, users[..n], i)
  {
    forall i | 0 <= i < n ensures Conses(lists, users[..n], i) {
      ListsStep(m, b, base, first, users, n, lists, i);
    }
  }

  /** A list that ends at slot `n` is that of the first `n` members. */
  lemma {:induction false} ListUpTo(
      m: Machine, b: seq<byte>, base: nat, first: nat, users: seq<Option<CString>>, n: nat)
    requires Sound(m) && n <= |users| && StringsAt(m, b, base, base + SlotAt(first, n)) == Some([])
    requires 0 < base && base + |b| <= ADDRESSES && MembersIn(m, b, base, first, users, |users|)
    requires forall i :: 0 <= i < n ==> users[i].Some? && |users[i].value| <= MAX_FIELD
    ensures StringsAt(m, b, base, base + first) == Some(Strings(users[..n]))
  {
    var lists := ListsAt(m, b, base, first, n);
    ListsChain(m, b, base, first, users, n, lists);
    AllOfList(lists, users[..n]);
    FirstList(m, b, base, first, n, lists);
  }

  lemma {:induction false} FirstList(
      m: Machine, b: seq<byte>, base: nat, first: nat, n: nat, lists: seq<Option<seq<CString>>>)
    requires lists == ListsAt(m, b, base, first, n)
    ensures lists[0] == StringsAt(m, b, base, base + first)
  {
    assert SlotAt(first, 0) == first;
  }

  lemma MembersReadBack(m: Machine, b: seq<byte>, base: nat, first: nat, users: seq<Option<CString>>)
    requires Sound(m)
    requires 0 < base && base + |b| <= ADDRESSES && MembersIn(m, b, base, first, users, |users|)
    requires Region(b, SlotAt(first, |users|), m.enc(0))
    requires forall i :: 0 <= i < |users| ==> users[i].Some? && |users[i].value| <= MAX_FIELD
    ensures StringsAt(m, b, base, base + first) == Some(Strings(users))
  {
    ListEnds(m, b, base, SlotAt(first, |users|));
    ListUpTo(m, b, base, first, users, |users|);
    assert users[..|users|] == users;
  }

  lemma NamesReadBack(b: seq<byte>, base: nat, name: CString, password: CString)
    requires |name| <= MAX_FIELD && |password| <= MAX_FIELD
    requires Region(b, 0, Copied(name)) && Region(b, |Copied(name)|, Copied(password))
    ensures StringAt(b, base, base) == Some(name)
    ensures StringAt(b, base, base + |Copied(name)|) == Some(password)
  {
    StringInRegion(b, base, 0, name);
    StringInRegion(b, base, |Copied(name)|, password);
  }

  /** The caller reads the name, the password and the members in their order, up to NULL. */
  lemma GroupReadBack(m: Machine, b: seq<byte>, base: nat, name: CString, users: seq<Option<CString>>)
    requires Sound(m)
    requires 0 < base && base + |b| <= ADDRESSES && Packed(m, b, base, name, users)
    requires |name| <= MAX_FIELD && forall i :: 0 <= i < |users| ==> users[i].Some? && |users[i].value| <= MAX_FIELD
    ensures StringAt(b, base, base) == Some(name)
    ensures StringAt(b, base, base + |Copied(name)|) == Some(PASSWORD)
    ensures StringsAt(m, b, base, base + SlotsAt(name)) == Some(Strings(users))
  {
    NamesReadBack(b, base, name, PASSWORD);
    MembersReadBack(m, b, base, SlotsAt(name), users);
  }

  const ZEROS: seq<byte> := [0, 0, 0, 0, 0, 0, 0, 0]

  /**
   * A member that is not a string leaves its slot alone.  In a buffer that was all zero, on a
   * machine whose NULL is all zero, the caller reads the members before it.
   */
  lemma NonStringEnds(m: Machine, b: seq<byte>, base: nat, first: nat, users: seq<Option<CString>>, j: nat)
    requires Sound(m) && m.dec(ZEROS) == 0
    requires 0 < base && base + |b| <= ADDRESSES && MembersIn(m, b, base, first, users, |users|)
    requires j < |users| && Region(b, SlotAt(first, j), ZEROS)
    requires forall i :: 0 <= i < j ==> users[i].Some? && |users[i].value| <= MAX_FIELD
    ensures StringsAt(m, b, base, base + first) == Some(Strings(users[..j]))
  {
    ZeroSlot(m, b, base, SlotAt(first, j));
    ListUpTo(m, b, base, first, users, j);
  }

  lemma ZeroSlot(m: Machine, b: seq<byte>, base: nat, p: nat)
    requires m.dec(ZEROS) == 0 && Region(b, p, ZEROS)
    ensures StringsAt(m, b, base, base + p) == Some([])
  {
  }

  /** For strings of an ordinary length, the exact room that a group takes. */
  lemma {:induction false} SizeExactly(name: CString, users: seq<Option<CString>>)
    requires |name| <= MAX_FIELD && forall i :: 0 <= i < |users| ==> users[i].Some? && |users[i].value| <= MAX_FIELD
    ensures Size(name, users) == |name| + 1 + 2 + 8 * (|users| + 1) + Lengths(Strings(users))
  {
    LengthsAre(users, |users|);
    assert Strings(users)[..|users|] == Strings(users);
  }

  function Lengths(ss: seq<CString>): nat {
    if |ss| == 0 then 0 else Lengths(ss[..|ss| - 1]) + |ss[|ss| - 1]| + 1
  }

  lemma {:induction false} LengthsAre(users: seq<Option<CString>>, n: nat)
    requires n <= |users| && forall i :: 0 <= i < |users| ==> users[i].Some? && |users[i].value| <= MAX_FIELD
    ensures RoomOf(users, n) == Lengths(Strings(users)[..n])
  {
    if n > 0 {
      LengthsAre(users, n - 1);
      assert Strings(users)[..n][..n - 1] == Strings(users)[..n - 1];
    }
  }
}
