/** The decoded JSON body of a request, as the handlers see it through `body.get(...)`
    and `body[...]`. */
module Json {

  datatype Option<+T> = None | Some(value: T)

  /** A scalar JSON value. Arrays, objects and floating-point numbers are not modelled. */
  datatype Value = Str(s: string) | Number(n: int) | Bool(b: bool)

  /** A request body: field name to value, where `None` stands for an explicit JSON `null`. */
  type Body = map<string, Option<Value>>

  /** `body.get(f)`: an absent key and a `null` value both read as `None`. */
  function Get(body: Body, f: string): (r: Option<Value>)
    ensures r.Some? <==> f in body && body[f].Some?
    ensures r.Some? ==> body[f] == r
  {
    if f in body then body[f] else None
  }

  /** The field is there and is not `null` (`body.get(f) is not None`). */
  predicate Present(body: Body, f: string) {
    Get(body, f).Some?
  }

  /** `body[f]` for a field already known to be present. */
  function Field(body: Body, f: string): Value
    requires Present(body, f)
  {
    Get(body, f).value
  }
}
