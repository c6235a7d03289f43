/** Values shared by every handler: optional values, the three states of a
    JSON object key as Python's `dict.get` sees them, and HTTP-style replies. */
module Common {

  datatype Option<+T> = None | Some(value: T) {

    /** The value, or `default` when there is none. */
    function GetOr(default: T): T {
      match this
      case Some(v) => v
      case None => default
    }
  }

  /** One key of a request's JSON object: missing, present with `null`, or
      present with a value. */
  datatype Field<+T> = Absent | Null | Present(value: T) {

    /** `data.get(key)`: both a missing key and an explicit `null` read as None. */
    function Get(): (r: Option<T>)
      ensures r.Some? <==> Present?
      ensures Present? ==> r == Some(value)
    {
      match this
      case Present(v) => Some(v)
      case _ => None
    }

    /** `data.get(key, default)`: the default replaces a missing key only,
        never an explicit `null`. */
    function GetOr(default: T): (r: Option<T>)
      ensures Absent? ==> r == Some(default)
      ensures Null? ==> r == None
      ensures Present? ==> r == Some(value)
    {
      if Absent? then Some(default) else Get()
    }
  }

  /** Python truthiness of an optional string: `None` and `''` are false. */
  predicate TruthyStr(o: Option<string>) {
    o.Some? && o.value != ""
  }

  /** Python truthiness of an optional integer: `None` and `0` are false. */
  predicate TruthyInt(o: Option<int>) {
    o.Some? && o.value != 0
  }

  /** The `(jsonify(...), status)` pair a route returns: a success payload or
      an error message, each with its status code. */
  datatype Reply<+T> = Success(code: nat, data: T) | Failure(code: nat, message: string)
}
