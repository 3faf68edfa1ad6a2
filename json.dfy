/**
 * JSON values as `JSON.parse` produces them, and the two JavaScript operators the
 * authentication core applies to them: optional property access (`v?.key`) and `||`.
 * `undefined` is `None`; a JSON `null` is `Some(Null)`.
 */
module Json {
  import opened Options

  datatype Value =
    | Null
    | Bool(b: bool)
    | Number(n: real)
    | Str(s: string)
    | Arr(items: seq<Value>)
    | Obj(fields: map<string, Value>)

  /** JavaScript truthiness. JSON has no NaN, so the only falsy number is zero. */
  predicate Truthy(v: Option<Value>) {
    match v
    case None => false
    case Some(Null) => false
    case Some(Bool(b)) => b
    case Some(Number(n)) => n != 0.0
    case Some(Str(s)) => s != ""
    case Some(Arr(_)) => true
    case Some(Obj(_)) => true
  }

  /** `a || b`: the left operand when it is truthy, the right one otherwise. */
  function Or(a: Option<Value>, b: Option<Value>): (r: Option<Value>)
    ensures Truthy(r) <==> Truthy(a) || Truthy(b)
    ensures Truthy(a) ==> r == a
    ensures !Truthy(a) ==> r == b
  {
    if Truthy(a) then a else b
  }

  /**
   * `v?.key` for the claim names the core reads (`email`, `sub`, `nameid`,
   * `given_name`, `family_name`, `name`, `message`): only an object's own
   * property can supply one of them; on `null` and `undefined` the access
   * short-circuits to `undefined`.
   */
  function Member(v: Option<Value>, key: string): (r: Option<Value>)
    ensures r.Some? ==> v.Some? && v.value.Obj? && key in v.value.fields && r.value == v.value.fields[key]
    ensures v.Some? && v.value.Obj? && key in v.value.fields ==> r.Some?
  {
    match v
    case Some(Obj(fields)) => if key in fields then Some(fields[key]) else None
    case _ => None
  }

  /** A JavaScript string as a JSON value. */
  function OfString(s: Option<string>): (r: Option<Value>)
    ensures Truthy(r) <==> s.Some? && s.value != ""
  {
    match s
    case Some(x) => Some(Str(x))
    case None => None
  }
}
