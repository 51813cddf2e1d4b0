/** The text of a value, compact or pretty, with slashes escaped or not. */
module Serializer {
  import opened Bytes
  import opened Members
  import opened Values
  import opened StringCodec

  datatype Format = Format(pretty: bool, slashes: bool)

  const COMMA: byte := 0x2C
  const COLON: byte := 0x3A
  const OPEN_ARRAY: byte := 0x5B
  const CLOSE_ARRAY: byte := 0x5D
  const OPEN_OBJECT: byte := 0x7B
  const CLOSE_OBJECT: byte := 0x7D

  /** Plain decimal notation, as `%1.17g` prints an integer of at most 2^53. */
  function Decimal(n: int): (t: seq<byte>)
    ensures |t| > 0
  {
    if n < 0 then [0x2D] + Digits(-n) else Digits(n)
  }

  function Digits(n: nat): (t: seq<byte>)
    ensures |t| > 0
  {
    if n < 10 then [0x30 + n] else Digits(n / 10) + [0x30 + n % 10]
  }

  function Indent(level: nat): (t: seq<byte>)
    ensures forall i :: 0 <= i < |t| ==> t[i] == SPACE
  {
    if level == 0 then [] else Indent(level - 1) + [SPACE, SPACE, SPACE, SPACE]
  }

  /** The line break and indentation of the pretty form. */
  function Gap(level: nat, f: Format): seq<byte> {
    if f.pretty then [NEWLINE] + Indent(level) else []
  }

  function Serialize(v: Value, level: nat, f: Format): (t: seq<byte>)
    ensures |t| > 0
    decreases v, 1
  {
    match v
    case Null => Ascii("null")
    case Bool(b) => if b then Ascii("true") else Ascii("false")
    case Number(n) => Decimal(n)
    case String(s) => Quote(s, f.slashes)
    case Array(items) =>
      if |items| == 0 then [OPEN_ARRAY, CLOSE_ARRAY]
      else [OPEN_ARRAY] + Gap(level + 1, f) + SerializeItems(items, level, f) + [CLOSE_ARRAY]
    case Object(ms) =>
      if |ms| == 0 then [OPEN_OBJECT, CLOSE_OBJECT]
      else [OPEN_OBJECT] + Gap(level + 1, f) + SerializeMembers(ms, level, f) + [CLOSE_OBJECT]
  }

  /** Items with the commas and line breaks between them, and the line break before the bracket. */
  function SerializeItems(items: seq<Value>, level: nat, f: Format): (t: seq<byte>)
    requires |items| > 0
    decreases items, 0
  {
    Serialize(items[0], level + 1, f) +
    if |items| == 1 then Gap(level, f)
    else [COMMA] + Gap(level + 1, f) + SerializeItems(items[1..], level, f)
  }

  function KeyText(key: CString, f: Format): seq<byte> {
    Quote(key, f.slashes) + [COLON] + if f.pretty then [SPACE] else []
  }

  function SerializeMembers(ms: seq<Member<Value>>, level: nat, f: Format): (t: seq<byte>)
    requires |ms| > 0
    decreases ms, 0
  {
    KeyText(ms[0].key, f) + Serialize(ms[0].value, level + 1, f) +
    if |ms| == 1 then Gap(level, f)
    else [COMMA] + Gap(level + 1, f) + SerializeMembers(ms[1..], level, f)
  }
}
