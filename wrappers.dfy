/** The optional value the application passes around where Python uses
    `None`. */
module Wrappers {

  datatype Option<+T> = None | Some(value: T)

  /** Python's truth test on an optional string (`if result:`): `None` and
      the empty string are both false. */
  predicate Present(r: Option<string>)
  {
    r.Some? && r.value != ""
  }
}
