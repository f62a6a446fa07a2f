/** The optional-value type shared by every component. */
module Wrappers {

  datatype Option<+T> = None | Some(value: T)

  /** Python truthiness of a value that is either None or a string:
      None and the empty string are both false. */
  predicate Truthy(o: Option<string>) {
    o.Some? && o.value != ""
  }

  /** Python's `a or b` for an optional string. */
  function OrElse(o: Option<string>, fallback: string): (r: string)
    ensures Truthy(o) ==> r == o.value
    ensures !Truthy(o) ==> r == fallback
  {
    if Truthy(o) then o.value else fallback
  }
}
