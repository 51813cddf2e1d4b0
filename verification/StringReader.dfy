/** The scanner and the decoder of string literals as they run: cursors and an output buffer. */
module StringReader {
  import opened Bytes
  import opened Utf8
  import opened JsonStrings

  /** Moves a cursor behind the closing quote of the literal it is at. */
  method SkipQuotes(s: seq<byte>, pos: nat) returns (ok: bool, end: nat)
    requires pos <= |s|
    ensures ok <==> At(s, pos) == QUOTE && SkipBody(s[pos + 1..]).Some?
    ensures ok ==> end == pos + 1 + SkipBody(s[pos + 1..]).value + 1 <= |s| && s[end - 1] == QUOTE
  {
    if At(s, pos) != QUOTE {
      return false, pos;
    }
    ghost var body, t := SkipBody(s[pos + 1..]), s[pos + 1..];
    end := pos + 1;
    while At(s, end) != QUOTE
      invariant pos + 1 <= end <= |s|
      invariant t == s[end..] && (body.Some? <==> SkipBody(t).Some?)
      invariant body.Some? ==> pos + 1 + body.value == end + SkipBody(t).value
      decreases |s| - end
    {
      if At(s, end) == 0 {
        return false, end;
      }
      ghost var k := if s[end] == BACKSLASH then 2 else 1;
      if s[end] == BACKSLASH {
        end := end + 1;
        if At(s, end) == 0 {
          return false, end;
        }
      }
      end := end + 1;
      t := t[k..];
    }
    end := end + 1;
    return true, end;
  }

  /** Writes the encoding of a code point; returns the offset of its last byte. */
  method PutCodePoint(cp: Scalar, output: array<byte>, o: nat) returns (o': nat)
    requires o + |Encode(cp)| <= output.Length
    modifies output
    ensures o' == o + |Encode(cp)| - 1
    ensures output[..] == old(output[..o]) + Encode(cp) + old(output[o' + 1..])
  {
    if cp < 0x80 {
      output[o] := cp;
      o' := o;
    } else if cp < 0x800 {
      output[o] := cp / 64 % 32 + 0xC0;
      output[o + 1] := cp % 64 + 0x80;
      o' := o + 1;
    } else if cp < 0x10000 {
      output[o] := cp / 4096 % 16 + 0xE0;
      output[o + 1] := cp / 64 % 64 + 0x80;
      output[o + 2] := cp % 64 + 0x80;
      o' := o + 2;
    } else {
      output[o] := cp / 262144 % 8 + 0xF0;
      output[o + 1] := cp / 4096 % 64 + 0x80;
      output[o + 2] := cp / 64 % 64 + 0x80;
      output[o + 3] := cp % 64 + 0x80;
      o' := o + 3;
    }
  }

  /** Decodes the escape whose `u` is at `p`; both cursors come back on the last character done. */
  method ParseUtf16(s: seq<byte>, p: nat, output: array<byte>, o: nat) returns (ok: bool, p': nat, o': nat)
    requires p < |s|
    requires Utf16(s[p + 1..]).Some? ==> o + |Utf16(s[p + 1..]).value.0| <= output.Length
    modifies output
    ensures ok <==> Utf16(s[p + 1..]).Some?
    ensures ok ==>
      && var (bytes, n) := Utf16(s[p + 1..]).value;
      && p' == p + n && o' == o + |bytes| - 1 && |bytes| > 0
      && output[..] == old(output[..o]) + bytes + old(output[o' + 1..])
  {
    p', o' := p, o;
    var t := s[p + 1..];
    var hex := Utf16Hex(t);
    if hex.None? {
      return false, p, o;
    }
    var cp := hex.value;
    p' := p + 1;
    if cp < 0xD800 || cp > 0xDFFF {
      o' := PutCodePoint(cp, output, o);
    } else if cp <= 0xDBFF {
      p' := p' + 4;
      if At(s, p') != BACKSLASH || At(s, p' + 1) != LOWER_U {
        return false, p, o;
      }
      p' := p' + 2;
      assert s[p'..] == t[6..];
      var trail := Utf16Hex(s[p'..]);
      if trail.None? || trail.value < 0xDC00 || trail.value > 0xDFFF {
        return false, p, o;
      }
      o' := PutCodePoint(Combine(cp, trail.value), output, o);
    } else {
      return false, p, o;
    }
    p' := p' + 3;
    return true, p', o';
  }

  /** Decodes the element at `p`: a plain byte or an escape. */
  method ProcessOne(s: seq<byte>, p: nat, output: array<byte>, o: nat) returns (ok: bool, p': nat, o': nat)
    requires p < |s|
    requires o < output.Length
    requires DecodeOne(s[p..]).Some? ==> o + |DecodeOne(s[p..]).value.0| <= output.Length
    modifies output
    ensures ok <==> DecodeOne(s[p..]).Some?
    ensures ok ==>
      && var (bytes, k) := DecodeOne(s[p..]).value;
      && p' == p + k && o' == o + |bytes| <= output.Length
      && output[..o'] == old(output[..o]) + bytes
  {
    ghost var t := s[p..];
    p', o' := p, o;
    if s[p] == BACKSLASH {
      p' := p + 1;
      var c := At(s, p');
      if c == LOWER_U {
        assert s[p' + 1..] == t[2..];
        ok, p', o' := ParseUtf16(s, p', output, o);
        if !ok {
          return false, p, o;
        }
      } else {
        var e := SimpleEscape(c);
        if e.None? {
          return false, p, o;
        }
        output[o] := e.value;
      }
    } else if s[p] < 0x20 {
      return false, p, o;
    } else {
      output[o] := s[p];
    }
    return true, p' + 1, o' + 1;
  }

  /** One step of the loop moves the meaning of one element from the rest to the output. */
  lemma DecodeStep(t: seq<byte>, n: nat, written: seq<byte>)
    requires SkipBody(t) == Some(n) && n > 0
    ensures t[0] != QUOTE && t[0] != 0
    ensures DecodeOne(t).None? ==> Decode(t, n).None?
    ensures DecodeOne(t).Some? ==>
      && var (bytes, k) := DecodeOne(t).value;
      && |bytes| <= k <= n && SkipBody(t[k..]) == Some(n - k)
      && Prepend(written, Decode(t, n)) == Prepend(written + bytes, Decode(t[k..], n - k))
  {
    if DecodeOne(t).Some? {
      var (bytes, k) := DecodeOne(t).value;
      SkipOne(t);
      PrependTwice(written, bytes, Decode(t[k..], n - k));
    }
  }

  /** One round of the loop; the output stays at most as long as what has been read. */
  method ProcessNext(
      s: seq<byte>, p: nat, output: array<byte>, o: nat, ghost t: seq<byte>, ghost n: nat,
      ghost whole: Option<seq<byte>>)
    returns (ok: bool, p': nat, o': nat, ghost t': seq<byte>, ghost n': nat)
    requires p <= |s| && t == s[p..] && SkipBody(t) == Some(n) && n > 0 && o + n < output.Length
    requires whole == Prepend(output[..o], Decode(t, n))
    modifies output
    ensures !ok ==> whole.None?
    ensures ok ==>
      && n' < n && p' == p + (n - n') <= |s| && o' <= o + (n - n') && t' == s[p'..] && SkipBody(t') == Some(n')
      && o' <= output.Length && whole == Prepend(output[..o'], Decode(t', n'))
  {
    DecodeStep(t, n, output[..o]);
    ok, p', o' := ProcessOne(s, p, output, o);
    t', n' := t, n;
    if ok {
      ghost var k := DecodeOne(t).value.1;
      t', n' := t[k..], n - k;
    }
  }

  /**
   * Decodes the body of a literal into a buffer of its own length and one byte more.  The
   * output never gets ahead of the input, so every write is inside the buffer.
   */
  method ProcessString(s: seq<byte>, start: nat, len: nat) returns (r: Option<seq<byte>>)
    requires start <= |s| && SkipBody(s[start..]) == Some(len)
    ensures r == Decode(s[start..], len)
    ensures r.Some? ==> |r.value| <= len
  {
    var output := new byte[len + 1];
    var p, o: nat := start, 0;
    ghost var whole, t, n := Decode(s[start..], len), s[start..], len;
    PrependNothing(whole);
    assert output[..o] == [];
    while At(s, p) != 0 && p - start < len
      invariant start <= p == start + len - n && 0 <= n && o <= p - start
      invariant t == s[p..] && SkipBody(t) == Some(n)
      invariant whole == Prepend(output[..o], Decode(t, n))
      decreases n
    {
      var ok;
      ok, p, o, t, n := ProcessNext(s, p, output, o, t, n, whole);
      if !ok {
        return None;
      }
    }
    output[o] := 0;
    r := Some(output[..o]);
    assert output[..o] + [] == output[..o];
  }

  /** The contents of the literal at a cursor; the cursor moves behind it. */
  method GetQuotedString(s: seq<byte>, pos: nat) returns (r: Option<seq<byte>>, pos': nat)
    requires pos <= |s|
    ensures r.Some? <==> QuotedString(s[pos..]).Some?
    ensures r.Some? ==> pos' <= |s| && QuotedString(s[pos..]) == Some((r.value, s[pos'..]))
  {
    var ok, end := SkipQuotes(s, pos);
    if At(s, pos) == QUOTE {
      assert s[pos..][1..] == s[pos + 1..];
    }
    if !ok {
      return None, pos;
    }
    var len := end - pos - 2;
    r := ProcessString(s, pos + 1, len);
    assert s[pos..][len + 2..] == s[end..];
    pos' := end;
  }
}
