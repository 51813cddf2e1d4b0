/** The UCS codec of the TOML reader: one to six bytes, as in the original UTF-8. */
module TomlCodes {
  import opened Bytes
  import Utf8

  /** The bytes of a code; surrogates, 0xFFFE, 0xFFFF and codes beyond 31 bits are refused. */
  function EncodeUcs(code: int): (r: Option<seq<byte>>)
    ensures r.Some? ==> 1 <= |r.value| <= 6
    ensures r.None? <==> code < 0 || code > 0x7FFF_FFFF || 0xD800 <= code <= 0xDFFF || 0xFFFE <= code <= 0xFFFF
  {
    if 0xD800 <= code <= 0xDFFF then None
    else if 0xFFFE <= code <= 0xFFFF then None
    else if code < 0 then None
    else if code <= 0x7F then Some([code])
    else if code <= 0x7FF then Some([0xC0 + code / 64, Low(code)])
    else if code <= 0xFFFF then Some([0xE0 + code / 4096, Low(code / 64), Low(code)])
    else if code <= 0x1F_FFFF then Some([0xF0 + code / 262144, Low(code / 4096), Low(code / 64), Low(code)])
    else if code <= 0x3FF_FFFF then
      Some([0xF8 + code / 16777216, Low(code / 262144), Low(code / 4096), Low(code / 64), Low(code)])
    else if code <= 0x7FFF_FFFF then
      Some([0xFC + code / 1073741824, Low(code / 16777216), Low(code / 262144), Low(code / 4096),
        Low(code / 64), Low(code)])
    else None
  }

  /** A continuation byte with the lowest six bits. */
  function Low(x: nat): byte { 0x80 + x % 64 }

  /** Writes the bytes of a code at an offset; -1 for a code that is refused. */
  method UcsToUtf8(code: int, buf: array<byte>, off: nat) returns (n: int)
    requires off + 6 <= buf.Length
    modifies buf
    ensures n == if EncodeUcs(code).None? then -1 else |EncodeUcs(code).value|
    ensures n == -1 ==> buf[..] == old(buf[..])
    ensures n != -1 ==> buf[..] == old(buf[..off]) + EncodeUcs(code).value + old(buf[off + n..])
  {
    if 0xD800 <= code <= 0xDFFF { return -1; }
    if 0xFFFE <= code <= 0xFFFF { return -1; }
    if code < 0 { return -1; }
    if code <= 0x7F {
      buf[off] := code;
      return 1;
    }
    if code <= 0x7FF {
      buf[off], buf[off + 1] := 0xC0 + code / 64, Low(code);
      return 2;
    }
    if code <= 0xFFFF {
      buf[off], buf[off + 1], buf[off + 2] := 0xE0 + code / 4096, Low(code / 64), Low(code);
      return 3;
    }
    if code <= 0x1F_FFFF {
      buf[off], buf[off + 1], buf[off + 2], buf[off + 3] :=
        0xF0 + code / 262144, Low(code / 4096), Low(code / 64), Low(code);
      return 4;
    }
    if code <= 0x3FF_FFFF {
      buf[off], buf[off + 1], buf[off + 2] := 0xF8 + code / 16777216, Low(code / 262144), Low(code / 4096);
      buf[off + 3], buf[off + 4] := Low(code / 64), Low(code);
      return 5;
    }
    if code <= 0x7FFF_FFFF {
      buf[off], buf[off + 1], buf[off + 2] := 0xFC + code / 1073741824, Low(code / 16777216), Low(code / 262144);
      buf[off + 3], buf[off + 4], buf[off + 5] := Low(code / 4096), Low(code / 64), Low(code);
      return 6;
    }
    return -1;
  }

  // ---- Decoding ----------------------------------------------------------------------------

  function Next(v: nat, b: nat): nat { v * 64 + b % 64 }

  /** Six more bits from each of `k` continuation bytes. */
  function Continue(v: nat, t: seq<byte>, k: nat): (r: Option<nat>)
    requires k <= |t|
    decreases k
  {
    if k == 0 then Some(v)
    else if t[0] / 64 != 2 then None
    else Continue(Next(v, t[0]), t[1..], k - 1)
  }

  /** How many continuation bytes the first byte announces, and the bits it carries itself. */
  function Lead(b: byte): (r: Option<(nat, nat)>)
    ensures r.Some? ==> r.value.0 <= 5
  {
    if b / 128 == 0 then Some((0, b))
    else if b / 32 == 0x6 then Some((1, b % 32))
    else if b / 16 == 0xE then Some((2, b % 16))
    else if b / 8 == 0x1E then Some((3, b % 8))
    else if b / 4 == 0x3E then Some((4, b % 4))
    else if b / 2 == 0x7E then Some((5, b % 2))
    else None
  }

  /** The code at the start of a text, and how many bytes it takes. */
  function DecodeUcs(t: seq<byte>): (r: Option<(nat, nat)>) {
    match Lead(At(t, 0))
    case None => None
    case Some((k, v)) =>
      if |t| < k + 1 then None
      else
        match Continue(v, t[1..], k)
        case None => None
        case Some(code) => Some((code, k + 1))
  }

  /** The decoder's loop over the continuation bytes. */
  method Utf8ToUcs(t: seq<byte>) returns (r: Option<(nat, nat)>)
    ensures r == DecodeUcs(t)
  {
    var lead := Lead(At(t, 0));
    if lead.None? {
      return None;
    }
    var k: nat, v: nat := lead.value.0, lead.value.1;
    if |t| < k + 1 {
      return None;
    }
    var j := 0;
    while j < k
      invariant 0 <= j <= k && k + 1 <= |t|
      invariant Continue(lead.value.1, t[1..], k) == Continue(v, t[1 + j..], k - j)
    {
      var b := t[1 + j];
      if b / 64 != 2 {
        return None;
      }
      assert t[1 + j..][1..] == t[2 + j..];
      v := Next(v, b);
      j := j + 1;
    }
    return Some((v, k + 1));
  }

  // ---- Every code that is written is read back --------------------------------------------------

  /** The continuation bytes that carry the low `k` groups of six bits. */
  function Lows(x: nat, k: nat): (t: seq<byte>)
    ensures |t| == k
  {
    if k == 0 then [] else Lows(x / 64, k - 1) + [Low(x)]
  }

  function Shift(x: nat, k: nat): nat {
    if k == 0 then x else Shift(x / 64, k - 1)
  }

  /** Horner's rule: the high bits followed by the low groups give the number back. */
  lemma {:induction false} ContinueLows(x: nat, k: nat, rest: seq<byte>)
    ensures Continue(Shift(x, k), Lows(x, k) + rest, k) == Some(x)
  {
    if k > 0 {
      var t := Lows(x / 64, k - 1);
      assert Lows(x, k) + rest == t + ([Low(x)] + rest);
      ContinueLows(x / 64, k - 1, [Low(x)] + rest);
      ContinueMore(Shift(x, k), t, k - 1, [Low(x)] + rest, x / 64);
      assert Next(x / 64, Low(x)) == x;
    }
  }

  /** One more byte after `n` bytes that gave `y`. */
  lemma {:induction false} ContinueMore(v: nat, t: seq<byte>, n: nat, more: seq<byte>, y: nat)
    requires |t| == n && |more| > 0 && more[0] / 64 == 2 && Continue(v, t + more, n) == Some(y)
    ensures Continue(v, t + more, n + 1) == Some(Next(y, more[0]))
    decreases n
  {
    if n == 0 {
      assert t + more == more;
    } else {
      assert (t + more)[1..] == t[1..] + more;
      ContinueMore(Next(v, t[0]), t[1..], n - 1, more, y);
    }
  }

  lemma ShiftIs(x: nat)
    ensures Shift(x, 1) == x / 64 && Shift(x, 2) == x / 4096 && Shift(x, 3) == x / 262144
    ensures Shift(x, 4) == x / 16777216 && Shift(x, 5) == x / 1073741824
  {
    assert Shift(x, 2) == x / 64 / 64 && Shift(x, 3) == x / 64 / 64 / 64;
    assert Shift(x, 4) == x / 64 / 64 / 64 / 64 && Shift(x, 5) == x / 64 / 64 / 64 / 64 / 64;
  }

  lemma TwoLows(x: nat)
    ensures Lows(x, 2) == [Low(x / 64), Low(x)]
  {
    OneLow(x / 64);
  }

  lemma ThreeLows(x: nat)
    ensures Lows(x, 3) == [Low(x / 4096), Low(x / 64), Low(x)]
  {
    var y := x / 64;
    TwoLows(y);
    assert y / 64 == x / 4096;
    assert Lows(x, 3) == Lows(y, 2) + [Low(x)];
  }

  lemma OneLow(x: nat)
    ensures Lows(x, 1) == [Low(x)]
  {
    assert Lows(x / 64, 0) == [];
  }

  lemma MoreLowsAre(x: nat)
    ensures Lows(x, 4) == [Low(x / 262144), Low(x / 4096), Low(x / 64), Low(x)]
    ensures Lows(x, 5) == [Low(x / 16777216), Low(x / 262144), Low(x / 4096), Low(x / 64), Low(x)]
  {
    var y, z := x / 64, x / 4096;
    ThreeLows(y);
    ThreeLows(z);
    assert y / 64 == z && y / 4096 == x / 262144 && z / 64 == x / 262144 && z / 4096 == x / 16777216;
    assert Lows(x, 4) == Lows(y, 3) + [Low(x)];
    assert Lows(y, 4) == Lows(z, 3) + [Low(y)];
    assert Lows(x, 5) == Lows(y, 4) + [Low(x)];
  }

  /** The number of continuation bytes of a code. */
  function Groups(code: nat): nat {
    if code <= 0x7F then 0 else if code <= 0x7FF then 1 else if code <= 0xFFFF then 2
    else if code <= 0x1F_FFFF then 3 else if code <= 0x3FF_FFFF then 4 else 5
  }

  lemma EncodingLows(code: nat)
    requires EncodeUcs(code).Some?
    ensures var e, k := EncodeUcs(code).value, Groups(code); |e| == k + 1 && e == [e[0]] + Lows(code, k)
  {
    OneLow(code);
    TwoLows(code);
    ThreeLows(code);
    MoreLowsAre(code);
  }

  lemma EncodingLead(code: nat)
    requires EncodeUcs(code).Some?
    ensures Lead(EncodeUcs(code).value[0]) == Some((Groups(code), Shift(code, Groups(code))))
  {
    ShiftIs(code);
  }

  lemma DecodeParts(lead: byte, v: nat, k: nat, lows: seq<byte>, rest: seq<byte>, code: nat)
    requires Lead(lead) == Some((k, v)) && |lows| == k && Continue(v, lows + rest, k) == Some(code)
    ensures DecodeUcs([lead] + lows + rest) == Some((code, k + 1))
  {
    var t := [lead] + lows + rest;
    assert t[1..] == lows + rest && t[0] == lead;
  }

  /** Every accepted code is decoded again, whatever bytes follow. */
  lemma UcsRoundTrip(code: int, rest: seq<byte>)
    requires EncodeUcs(code).Some?
    ensures DecodeUcs(EncodeUcs(code).value + rest) == Some((code, |EncodeUcs(code).value|))
  {
    var e, k := EncodeUcs(code).value, Groups(code);
    EncodingLows(code);
    EncodingLead(code);
    ContinueLows(code, k, rest);
    DecodeParts(e[0], Shift(code, k), k, Lows(code, k), rest, code);
  }

  // ---- No shorter bytes, and the common ones ----------------------------------------------------

  function Pow64(k: nat): (p: nat)
    ensures p > 0
  {
    if k == 0 then 1 else 64 * Pow64(k - 1)
  }

  lemma BoundNext(v: nat, b: nat, p: nat)
    ensures (Next(v, b) + 1) * p <= (v + 1) * (64 * p)
  {
    var d := 63 - b % 64;
    assert (v + 1) * (64 * p) - (Next(v, b) + 1) * p == d * p;
  }

  /** Continuation bytes add six bits each and no more. */
  lemma {:induction false} ContinueBound(v: nat, t: seq<byte>, k: nat)
    requires k <= |t| && Continue(v, t, k).Some?
    ensures Continue(v, t, k).value < (v + 1) * Pow64(k)
    decreases k
  {
    if k > 0 {
      ContinueBound(Next(v, t[0]), t[1..], k - 1);
      BoundNext(v, t[0], Pow64(k - 1));
    }
  }

  /** What may be decoded with at most `k` continuation bytes. */
  function Limit(k: nat): nat
    requires k <= 5
  {
    [0x80, 0x800, 0x1_0000, 0x20_0000, 0x400_0000, 0x8000_0000][k]
  }

  lemma LeadBound(b: byte)
    requires Lead(b).Some?
    ensures var (k, v) := Lead(b).value; (v + 1) * Pow64(k) <= Limit(k)
  {
    assert Pow64(1) == 64 * Pow64(0) && Pow64(2) == 64 * Pow64(1) && Pow64(3) == 64 * Pow64(2);
    assert Pow64(4) == 64 * Pow64(3) && Pow64(5) == 64 * Pow64(4);
  }

  lemma DecodeBound(t: seq<byte>)
    requires DecodeUcs(t).Some?
    ensures var (code, n) := DecodeUcs(t).value; 1 <= n <= 6 && code < Limit(n - 1)
  {
    var (k, v) := Lead(At(t, 0)).value;
    ContinueBound(v, t[1..], k);
    LeadBound(At(t, 0));
  }

  /** Whatever bytes a code is decoded from, the encoding is not longer. */
  lemma EncodingShortest(code: int, t: seq<byte>)
    requires EncodeUcs(code).Some? && DecodeUcs(t).Some? && DecodeUcs(t).value.0 == code
    ensures |EncodeUcs(code).value| <= DecodeUcs(t).value.1
  {
    DecodeBound(t);
    EncodingLows(code);
  }

  /** The code of a scalar value has the bytes of section 3 of RFC 3629, two noncharacters excepted. */
  lemma EncodingIsUtf8(code: Utf8.Scalar)
    ensures EncodeUcs(code) == if code == 0xFFFE || code == 0xFFFF then None else Some(Utf8.Encode(code))
  {
  }
}
