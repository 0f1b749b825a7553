/** Values as JavaScript hands them around: optional attributes, parsed YAML
    documents and the `unknown` slots of a schema (`default`, `example`,
    `enum` members), together with JavaScript's notion of truthiness. */
module JsValues {

  /** An attribute that may be `undefined`. */
  datatype Option<+T> = None | Some(value: T) {
    /** `x ?? fallback`, also `x || fallback` when every present value is truthy */
    function GetOr(fallback: T): T {
      match this
      case Some(v) => v
      case None => fallback
    }
  }

  /** The outcome of an operation that may throw. */
  datatype Result<+T, +E> = Ok(value: T) | Err(error: E)

  /** A parsed YAML/JSON value. Numbers are modelled as integers. */
  datatype Value =
    | Null
    | Bool(b: bool)
    | Num(n: int)
    | Str(s: string)
    | Arr(elements: seq<Value>)
    | Obj(members: seq<Member>)

  /** One key of a mapping, in document order. */
  datatype Member = Member(key: string, val: Value)

  /** `Boolean(v)`: `null`, `false`, `0` and `""` are falsy; every array and
      every object is truthy, even an empty one. */
  predicate Truthy(v: Value) {
    match v
    case Null => false
    case Bool(b) => b
    case Num(n) => n != 0
    case Str(s) => s != ""
    case Arr(_) => true
    case Obj(_) => true
  }

  /** `if (x)` on an optional string attribute: present and non-empty. */
  predicate TruthyString(o: Option<string>) {
    o.Some? && o.value != ""
  }

  /** `if (src.x) { dst.x = src.x; }` applied to an absent `dst.x`. */
  function KeepTruthy(o: Option<string>): (r: Option<string>)
    ensures r.Some? <==> TruthyString(o)
    ensures r.Some? ==> r == o
  {
    if TruthyString(o) then o else None
  }

  /** `key in obj`: whether a mapping has the key. */
  predicate HasKey(members: seq<Member>, key: string) {
    exists m | m in members :: m.key == key
  }

  /** `obj[key]` on a mapping: the value stored under `key`. A YAML loader
      rejects duplicate keys, so the first match is the only one. */
  function Get(members: seq<Member>, key: string): (r: Option<Value>)
    ensures r.Some? <==> HasKey(members, key)
    ensures r.Some? ==> Member(key, r.value) in members
  {
    if members == [] then None
    else if members[0].key == key then Some(members[0].val)
    else Get(members[1..], key)
  }
}
