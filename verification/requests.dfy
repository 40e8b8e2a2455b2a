/**
 Request header and query collections. The host keeps them in dictionaries
 that compare names ignoring case; here a collection is a map keyed by the
 lower-cased name, and every lookup lower-cases the name it asks for.
 */
module Requests {
  import opened Results
  import opened Text

  /** A map whose keys are all lower-cased names. */
  type Collection = c: map<string, seq<string>> | forall k | k in c :: Lower(k) == k

  /** `TryGetValue(name, out values)`. */
  function TryGetValue(c: Collection, name: string): Option<seq<string>> {
    if Lower(name) in c then Some(c[Lower(name)]) else None
  }

  /** Setting the values of entry `name`: looking it up afterwards finds
      them, and every other entry is unchanged. */
  function SetValues(c: Collection, name: string, values: seq<string>): (r: Collection)
    ensures TryGetValue(r, name) == Some(values)
    ensures forall other | Lower(other) != Lower(name) :: TryGetValue(r, other) == TryGetValue(c, other)
  {
    LowerIdempotent(name);
    c[Lower(name) := values]
  }

  /** `values.FirstOrDefault()`: the first value, or null when there is none. */
  function FirstOrDefault(values: seq<string>): Option<string> {
    if |values| == 0 then None else Some(values[0])
  }

  /** The implicit conversion of `StringValues` to `string`: null for no
      value, the value itself for one, the values joined by ',' for more. */
  function AsString(values: seq<string>): Option<string> {
    if |values| == 0 then None
    else if |values| == 1 then Some(values[0])
    else Some(Join(values, ','))
  }

  /** `Request.Query[name]` read as a string: a missing parameter is an
      empty `StringValues`, hence null. */
  function QueryValue(query: Collection, name: string): (r: Option<string>)
    ensures TryGetValue(query, name).None? ==> r.None?
    ensures r.Some? <==> TryGetValue(query, name).Some? && |TryGetValue(query, name).value| > 0
    ensures r.Some? && |TryGetValue(query, name).value| == 1 ==> r.value == TryGetValue(query, name).value[0]
  {
    match TryGetValue(query, name)
    case None => None
    case Some(values) => AsString(values)
  }
}
