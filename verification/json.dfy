/** JSON values as `json.loads` returns them, and the two Python
    operations the weather service applies to them with a string key:
    `key in v` and `v[key]`, plus `v[0]`.  Numbers are carried as their
    literal text: the service never computes with them. */
module Json {
  import opened Wrappers
  import opened Python

  datatype Json =
    | Null
    | Bool(b: bool)
    | Num(literal: string)
    | Str(s: string)
    | Arr(items: seq<Json>)
    | Obj(fields: map<string, Json>)

  /** `key in v`: key membership for a dict, element equality for a
      list, substring test for a str; other values are not iterable. */
  function Contains(v: Json, key: string): (r: Result<bool, PyError>)
    ensures r.Failure? <==> !(v.Obj? || v.Arr? || v.Str?)
    ensures r.Failure? ==> r.error == TypeError
  {
    match v
    case Obj(m) => Success(key in m)
    case Arr(items) => Success(Str(key) in items)
    case Str(s) => Success(Occurs(key, s))
    case _ => Failure(TypeError)
  }

  /** `v[key]`: only a dict can be subscripted by a string, and only
      with a key it has. */
  function Index(v: Json, key: string): (r: Result<Json, PyError>)
    ensures r.Success? <==> Contains(v, key) == Success(true) && v.Obj?
    ensures r.Success? ==> r.value == v.fields[key]
    ensures r.Failure? && v.Obj? ==> r.error == KeyError
    ensures r.Failure? && !v.Obj? ==> r.error == TypeError
  {
    match v
    case Obj(m) => if key in m then Success(m[key]) else Failure(KeyError)
    case _ => Failure(TypeError)
  }

  /** `v[0]`: the first element of a list or the first character of a
      str; a dict has no key `0` (JSON keys are strings). */
  function IndexFirst(v: Json): (r: Result<Json, PyError>)
    ensures r.Success? <==> (v.Arr? && |v.items| > 0) || (v.Str? && |v.s| > 0)
  {
    match v
    case Arr(items) => if |items| > 0 then Success(items[0]) else Failure(IndexError)
    case Str(s) => if |s| > 0 then Success(Str([s[0]])) else Failure(IndexError)
    case Obj(_) => Failure(KeyError)
    case _ => Failure(TypeError)
  }

  /** A subscript `v[key]` succeeds only if `key in v` is true: once the
      `in` test says no, the subscript raises. */
  lemma AbsentKeyRaises(v: Json, key: string)
    requires Contains(v, key) == Success(false)
    ensures Index(v, key).Failure?
  {
  }
}
