/** UTF-8 validation, against the encoding of RFC 3629. */
module Utf8 {
  import opened Bytes

  /** A Unicode scalar value: any code point but a surrogate. */
  type Scalar = cp: int | 0 <= cp <= 0x10FFFF && !(0xD800 <= cp <= 0xDFFF)

  /** Section 3 of RFC 3629. */
  function Encode(cp: Scalar): (s: seq<byte>)
    ensures 1 <= |s| <= 4
  {
    if cp < 0x80 then [cp]
    else if cp < 0x800 then [0xC0 + cp / 64, 0x80 + cp % 64]
    else if cp < 0x10000 then [0xE0 + cp / 4096, 0x80 + cp / 64 % 64, 0x80 + cp % 64]
    else [0xF0 + cp / 262144, 0x80 + cp / 4096 % 64, 0x80 + cp / 64 % 64, 0x80 + cp % 64]
  }

  function EncodeAll(cps: seq<Scalar>): seq<byte> {
    if |cps| == 0 then [] else Encode(cps[0]) + EncodeAll(cps[1..])
  }

  predicate Tail(b: byte) { 0x80 <= b <= 0xBF }

  /** The grammar of a well-formed sequence, section 4 of RFC 3629. */
  predicate Utf8Char(s: seq<byte>) {
    || (|s| == 1 && s[0] <= 0x7F)
    || (|s| == 2 && 0xC2 <= s[0] <= 0xDF && Tail(s[1]))
    || (|s| == 3 && Tail(s[2]) && (
          || (s[0] == 0xE0 && 0xA0 <= s[1] <= 0xBF)
          || (0xE1 <= s[0] <= 0xEC && Tail(s[1]))
          || (s[0] == 0xED && 0x80 <= s[1] <= 0x9F)
          || (0xEE <= s[0] <= 0xEF && Tail(s[1]))))
    || (|s| == 4 && Tail(s[2]) && Tail(s[3]) && (
          || (s[0] == 0xF0 && 0x90 <= s[1] <= 0xBF)
          || (0xF1 <= s[0] <= 0xF3 && Tail(s[1]))
          || (s[0] == 0xF4 && 0x80 <= s[1] <= 0x8F)))
  }

  /** The source's mask tests, as divisions. */
  predicate IsCont(b: byte) { b / 64 == 2 }

  function SequenceLength(c: byte): (n: nat)
    ensures n <= 4
  {
    if c == 0xC0 || c == 0xC1 || c > 0xF4 || IsCont(c) then 0
    else if c / 128 == 0 then 1
    else if c / 32 == 6 then 2
    else if c / 16 == 14 then 3
    else if c / 8 == 30 then 4
    else 0
  }

  /** The payload bits of sequences of two, three and four bytes. */
  function Bits2(a: int, b: int): int { a % 32 * 64 + b % 64 }
  function Bits3(a: int, b: int, c: int): int { (a % 16 * 64 + b % 64) * 64 + c % 64 }
  function Bits4(a: int, b: int, c: int, d: int): int { ((a % 8 * 64 + b % 64) * 64 + c % 64) * 64 + d % 64 }

  /**
   * The length of the sequence at the cursor, if it is a valid one.  Reads stop at the
   * terminator after `t`: a byte is looked at only once all bytes before it continue the sequence.
   */
  function VerifySequence(t: seq<byte>): (r: Option<nat>) {
    var len := SequenceLength(At(t, 0));
    var cp :=
      if len == 1 then At(t, 0)
      else if len == 2 && IsCont(At(t, 1)) then Bits2(At(t, 0), At(t, 1))
      else if len == 3 && IsCont(At(t, 1)) && IsCont(At(t, 2)) then
        Bits3(At(t, 0), At(t, 1), At(t, 2))
      else if len == 4 && IsCont(At(t, 1)) && IsCont(At(t, 2)) && IsCont(At(t, 3)) then
        Bits4(At(t, 0), At(t, 1), At(t, 2), At(t, 3))
      else -1;
    if cp == -1 then None
    else if (cp < 0x80 && len > 1) || (cp < 0x800 && len > 2) || (cp < 0x10000 && len > 3) then None
    else if cp > 0x10FFFF then None
    else if 0xD800 <= cp <= 0xDFFF then None
    else Some(len)
  }

  lemma Digits(a: nat, b: nat, c: nat, d: nat)
    requires b < 64 && c < 64 && d < 64
    ensures var x := ((a * 64 + b) * 64 + c) * 64 + d;
      x / 262144 == a && x / 4096 % 64 == b && x / 64 % 64 == c && x % 64 == d
  {
    var y := a * 64 + b;
    var z := y * 64 + c;
    assert y / 64 == a && z / 64 == y && (z * 64 + d) / 64 == z;
  }

  lemma Encode2(cp: Scalar)
    requires 0x80 <= cp < 0x800
    ensures Bits2(0xC0 + cp / 64, 0x80 + cp % 64) == cp
  {
  }

  lemma Encode3(cp: Scalar)
    requires 0x800 <= cp < 0x10000
    ensures Bits3(0xE0 + cp / 4096, 0x80 + cp / 64 % 64, 0x80 + cp % 64) == cp
  {
    var x, y := cp / 64, cp / 4096;
    assert x / 64 == y && 0 <= y < 16;
    assert (0xE0 + y) % 16 == y && (0x80 + x % 64) % 64 == x % 64 && (0x80 + cp % 64) % 64 == cp % 64;
  }

  lemma Encode4(cp: Scalar)
    requires 0x10000 <= cp
    ensures Bits4(0xF0 + cp / 262144, 0x80 + cp / 4096 % 64, 0x80 + cp / 64 % 64, 0x80 + cp % 64) == cp
  {
    var x, y, z := cp / 64, cp / 4096, cp / 262144;
    assert x / 64 == y && y / 64 == z && 0 <= z < 8;
    assert (0xF0 + z) % 8 == z && (0x80 + y % 64) % 64 == y % 64;
    assert (0x80 + x % 64) % 64 == x % 64 && (0x80 + cp % 64) % 64 == cp % 64;
  }

  lemma VerifySound2(t: seq<byte>)
    requires |t| > 1 && VerifySequence(t) == Some(2)
    ensures var cp := Bits2(t[0], t[1]); 0x80 <= cp < 0x800 && Encode(cp) == t[..2]
  {
  }

  lemma VerifySound3(t: seq<byte>)
    requires |t| > 2 && VerifySequence(t) == Some(3)
    ensures var cp := Bits3(t[0], t[1], t[2]);
      0x800 <= cp < 0x10000 && !(0xD800 <= cp <= 0xDFFF) && Encode(cp) == t[..3]
  {
    Digits(0, t[0] % 16, t[1] % 64, t[2] % 64);
  }

  lemma VerifySound4(t: seq<byte>)
    requires |t| > 3 && VerifySequence(t) == Some(4)
    ensures var cp := Bits4(t[0], t[1], t[2], t[3]); 0x10000 <= cp <= 0x10FFFF && Encode(cp) == t[..4]
  {
    Digits(t[0] % 8, t[1] % 64, t[2] % 64, t[3] % 64);
  }

  /** What is accepted at the cursor is the encoding of a scalar value ... */
  lemma VerifySound(t: seq<byte>) returns (cp: Scalar)
    requires |t| > 0 && VerifySequence(t).Some?
    ensures VerifySequence(t).value == |Encode(cp)| && Encode(cp) <= t
  {
    var n := VerifySequence(t).value;
    if n == 1 {
      cp := t[0];
    } else if n == 2 {
      VerifySound2(t);
      cp := Bits2(t[0], t[1]);
    } else if n == 3 {
      VerifySound3(t);
      cp := Bits3(t[0], t[1], t[2]);
    } else {
      VerifySound4(t);
      cp := Bits4(t[0], t[1], t[2], t[3]);
    }
  }

  /** ... and every encoding of a scalar value is accepted, whatever follows. */
  lemma VerifyComplete(cp: Scalar, rest: seq<byte>)
    ensures VerifySequence(Encode(cp) + rest) == Some(|Encode(cp)|)
  {
    var e, t := Encode(cp), Encode(cp) + rest;
    assert forall i :: 0 <= i < |e| ==> At(t, i) == e[i];
    if cp < 0x80 {
      assert At(t, 0) == cp;
    } else if cp < 0x800 {
      VerifyComplete2(cp, t);
    } else if cp < 0x10000 {
      VerifyComplete3(cp, t);
    } else {
      VerifyComplete4(cp, t);
    }
  }

  lemma VerifyComplete2(cp: Scalar, t: seq<byte>)
    requires 0x80 <= cp < 0x800 && |t| >= 2 && t[0] == 0xC0 + cp / 64 && t[1] == 0x80 + cp % 64
    ensures VerifySequence(t) == Some(2)
  {
    Encode2(cp);
  }

  lemma VerifyComplete3(cp: Scalar, t: seq<byte>)
    requires 0x800 <= cp < 0x10000 && |t| >= 3
    requires t[0] == 0xE0 + cp / 4096 && t[1] == 0x80 + cp / 64 % 64 && t[2] == 0x80 + cp % 64
    ensures VerifySequence(t) == Some(3)
  {
    Encode3(cp);
  }

  lemma VerifyComplete4(cp: Scalar, t: seq<byte>)
    requires 0x10000 <= cp && |t| >= 4
    requires t[0] == 0xF0 + cp / 262144 && t[1] == 0x80 + cp / 4096 % 64
    requires t[2] == 0x80 + cp / 64 % 64 && t[3] == 0x80 + cp % 64
    ensures VerifySequence(t) == Some(4)
  {
    Encode4(cp);
  }

  lemma GrammarVerifies(s: seq<byte>)
    requires Utf8Char(s)
    ensures VerifySequence(s) == Some(|s|)
  {
  }

  lemma EncodingInGrammar(cp: Scalar)
    ensures Utf8Char(Encode(cp))
  {
    if cp >= 0x10000 {
      assert cp / 4096 / 64 == cp / 262144;
    } else if cp >= 0x800 {
      assert cp / 64 / 64 == cp / 4096;
    }
  }

  /** The table of section 4 describes the encodings of section 3. */
  lemma GrammarIsEncoding(s: seq<byte>)
    ensures Utf8Char(s) <==> exists cp: Scalar :: Encode(cp) == s
  {
    if Utf8Char(s) {
      GrammarVerifies(s);
      var cp := VerifySound(s);
      assert Encode(cp) == s;
    }
    forall cp: Scalar | Encode(cp) == s ensures Utf8Char(s) {
      EncodingInGrammar(cp);
    }
  }

  ghost predicate Utf8Text(s: seq<byte>) {
    exists cps: seq<Scalar> :: EncodeAll(cps) == s
  }

  lemma Utf8TextAfter(t: seq<byte>)
    requires |t| > 0 && Utf8Text(t)
    ensures VerifySequence(t).Some? && VerifySequence(t).value <= |t| && Utf8Text(t[VerifySequence(t).value..])
  {
    var cps: seq<Scalar> :| EncodeAll(cps) == t;
    var e, rest := Encode(cps[0]), EncodeAll(cps[1..]);
    VerifyComplete(cps[0], rest);
    assert t == e + rest && t[|e|..] == rest;
  }

  lemma Utf8TextBefore(cp: Scalar, rest: seq<byte>)
    requires Utf8Text(rest)
    ensures Utf8Text(Encode(cp) + rest)
  {
    var cps: seq<Scalar> :| EncodeAll(cps) == rest;
    assert ([cp] + cps)[1..] == cps;
    assert EncodeAll([cp] + cps) == Encode(cp) + rest;
  }

  lemma Utf8TextStep(t: seq<byte>)
    requires |t| > 0
    ensures Utf8Text(t) <==>
      VerifySequence(t).Some? && VerifySequence(t).value <= |t| && Utf8Text(t[VerifySequence(t).value..])
  {
    if Utf8Text(t) {
      Utf8TextAfter(t);
    } else if VerifySequence(t).Some? && VerifySequence(t).value <= |t| {
      var cp := VerifySound(t);
      var rest := t[|Encode(cp)|..];
      assert t == Encode(cp) + rest;
      if Utf8Text(rest) {
        Utf8TextBefore(cp, rest);
      }
    }
  }

  /** Accepts exactly the encodings of sequences of scalar values. */
  method IsValidUtf8(s: seq<byte>) returns (ok: bool)
    ensures ok <==> Utf8Text(s)
  {
    var pos := 0;
    while pos < |s|
      invariant pos <= |s|
      invariant Utf8Text(s) <==> Utf8Text(s[pos..])
    {
      Utf8TextStep(s[pos..]);
      var r := VerifySequence(s[pos..]);
      if r.None? {
        return false;
      }
      ghost var cp := VerifySound(s[pos..]);
      assert s[pos..][r.value..] == s[pos + r.value..];
      pos := pos + r.value;
    }
    assert EncodeAll([]) == s[pos..];
    return true;
  }
}
