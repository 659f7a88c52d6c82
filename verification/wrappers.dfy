/** Optional values and the JavaScript "falsy" defaults the routes apply to them. */
module Wrappers {

  datatype Option<+T> = None | Some(value: T) {
    function GetOr(default: T): T {
      match this
      case Some(v) => v
      case None => default
    }
  }

  /** `s || null` on a string: the empty string is falsy and becomes null. */
  function NullIfEmpty(s: string): (r: Option<string>)
    ensures r.None? <==> s == []
    ensures r.Some? ==> r.value == s
  {
    if s == [] then None else Some(s)
  }

  /** `x || null` on a nullable string read back from the database. */
  function OrNull(o: Option<string>): (r: Option<string>)
    ensures r.None? <==> (o.None? || o.value == [])
    ensures r.Some? ==> r == o
  {
    match o
    case None => None
    case Some(s) => NullIfEmpty(s)
  }
}
