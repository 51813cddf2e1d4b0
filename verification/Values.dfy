/** JSON values as immutable trees. */
module Values {
  import opened Bytes
  import opened Members

  /** Numbers are the integers that a double holds exactly. */
  datatype Value =
    | Null
    | Bool(b: bool)
    | Number(n: int)
    | String(s: seq<byte>)
    | Array(items: seq<Value>)
    | Object(members: seq<Member<Value>>)

  const MAX_EXACT: int := 0x20_0000_0000_0000

  /** What the constructors of the library can build: distinct keys, exact numbers. */
  ghost predicate WellFormed(v: Value) {
    match v
    case Number(n) => -MAX_EXACT <= n <= MAX_EXACT
    case Array(items) => forall i :: 0 <= i < |items| ==> WellFormed(items[i])
    case Object(ms) => Unique(ms) && forall i :: 0 <= i < |ms| ==> WellFormed(ms[i].value)
    case _ => true
  }

  /** No value sits below more than `d` containers. */
  ghost predicate Fits(v: Value, d: nat) {
    match v
    case Array(items) => |items| == 0 || (d > 0 && forall i :: 0 <= i < |items| ==> Fits(items[i], d - 1))
    case Object(ms) => |ms| == 0 || (d > 0 && forall i :: 0 <= i < |ms| ==> Fits(ms[i].value, d - 1))
    case _ => true
  }
}
