/**
 * The deserialized JSON values that clause records are made of, Python's
 * truthiness on them, and the `a or b or ... or d` chains the core uses to
 * pick the first present, non-empty field.
 */
module Values {
  import opened Wrappers

  /**
   * A JSON value as `json.load` produces it; an object lists its members in
   * insertion order. `json.load` keeps only the last of repeated keys, so the
   * values it produces have distinct member names; the type does not enforce
   * that.
   */
  datatype Value =
    | Null
    | Bool(b: bool)
    | Num(n: real)
    | Str(s: string)
    | Arr(items: seq<Value>)
    | Obj(members: seq<(string, Value)>)

  /** A clause record: a mapping from field names to values. */
  type Record = map<string, Value>

  /** Python's `bool(v)`: None, False, zero and empty containers are false. */
  predicate Truthy(v: Value) {
    match v
    case Null => false
    case Bool(b) => b
    case Num(n) => n != 0.0
    case Str(s) => s != []
    case Arr(items) => items != []
    case Obj(members) => members != []
  }

  /** `c.get(key)` */
  function Get(c: Record, key: string): Value {
    if key in c then c[key] else Null
  }

  /** `c.get(key, default)` */
  function GetOr(c: Record, key: string, default: Value): Value {
    if key in c then c[key] else default
  }

  /**
   * `c.get(keys[0]) or c.get(keys[1]) or ... or fallback`: the value of the
   * first key whose value is truthy, else `fallback` as it is.
   */
  function FirstTruthy(c: Record, keys: seq<string>, fallback: Value): (v: Value)
    ensures (forall i :: 0 <= i < |keys| ==> !Truthy(Get(c, keys[i]))) ==> v == fallback
    ensures forall i ::
      (0 <= i < |keys| && Truthy(Get(c, keys[i])) && forall j :: 0 <= j < i ==> !Truthy(Get(c, keys[j])))
      ==> v == Get(c, keys[i])
  {
    if keys == [] then fallback
    else if Truthy(Get(c, keys[0])) then Get(c, keys[0])
    else FirstTruthy(c, keys[1..], fallback)
  }

  /** Python's `for k in v`: the items of a list, the characters of a string, the keys of an object. */
  function Elements(v: Value): Option<seq<Value>> {
    match v
    case Arr(items) => Some(items)
    case Str(s) => Some(seq(|s|, i requires 0 <= i < |s| => Str([s[i]])))
    case Obj(members) => Some(seq(|members|, i requires 0 <= i < |members| => Str(members[i].0)))
    case _ => None
  }
}
