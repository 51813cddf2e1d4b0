/** Bytes, C strings and the option type shared by every module. */
module Bytes {
  datatype Option<+T> = None | Some(value: T)

  type byte = b: int | 0 <= b < 256

  const QUOTE: byte := 0x22
  const BACKSLASH: byte := 0x5C
  const LOWER_U: byte := 0x75
  const NEWLINE: byte := 0x0A
  const SPACE: byte := 0x20

  /** White space in the C locale: space, tab, newline, vertical tab, form feed and carriage return. */
  predicate IsBlank(b: byte) {
    b == 0x20 || b == 0x09 || b == 0x0A || b == 0x0B || b == 0x0C || b == 0x0D
  }

  predicate NulFree(s: seq<byte>) {
    forall i :: 0 <= i < |s| ==> s[i] != 0
  }

  /** What a `char *` that the source measures with `strlen` can hold. */
  type CString = s: seq<byte> | NulFree(s)

  /** The byte under a cursor whose remaining text is `t`; the terminator after the last byte. */
  function Head(t: seq<byte>): byte {
    if |t| > 0 then t[0] else 0
  }

  /** The byte `i` places ahead of a cursor; asking beyond the terminator is not allowed. */
  function At(t: seq<byte>, i: nat): byte
    requires i <= |t|
  {
    if i < |t| then t[i] else 0
  }

  /** ASCII text as bytes. */
  function Ascii(s: string): (r: seq<byte>)
    requires forall i :: 0 <= i < |s| ==> s[i] < 128 as char
    ensures |r| == |s|
    ensures forall i :: 0 <= i < |s| ==> r[i] == s[i] as int
  {
    seq(|s|, i requires 0 <= i < |s| => s[i] as int)
  }

  /** The C string that starts a byte sequence: everything before the first NUL. */
  function CStr(s: seq<byte>): (r: CString)
    ensures r <= s
    ensures |r| == |s| || s[|r|] == 0
  {
    if |s| == 0 || s[0] == 0 then []
    else [s[0]] + CStr(s[1..])
  }

  /** What a decoder has read, in front of what it will read, unless that fails. */
  function Prepend(bytes: seq<byte>, r: Option<seq<byte>>): Option<seq<byte>> {
    if r.None? then None else Some(bytes + r.value)
  }

  lemma PrependNothing(r: Option<seq<byte>>)
    ensures Prepend([], r) == r
  {
    if r.Some? {
      assert [] + r.value == r.value;
    }
  }

  lemma PrependTwice(a: seq<byte>, b: seq<byte>, r: Option<seq<byte>>)
    ensures Prepend(a, Prepend(b, r)) == Prepend(a + b, r)
  {
    if r.Some? {
      assert a + (b + r.value) == a + b + r.value;
    }
  }

  lemma Assoc(a: seq<byte>, b: seq<byte>, c: seq<byte>)
    ensures a + (b + c) == a + b + c
  {
  }

  lemma Surround(q: seq<byte>, body: seq<byte>, rest: seq<byte>)
    ensures q + body + q + rest == q + (body + (q + rest))
  {
  }

  lemma Regroup(a: seq<byte>, b: seq<byte>, c: seq<byte>, d: seq<byte>)
    ensures a + b + c + d == a + (b + c + d)
  {
  }

  lemma SplitTake(t: seq<byte>, k: nat, n: nat)
    requires k <= n <= |t|
    ensures t[..n] == t[..k] + t[k..][..n - k]
  {
  }
}
