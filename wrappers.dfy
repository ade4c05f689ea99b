/** The optional value used wherever the Python code may hold `None`. */
module Wrappers {

  datatype Option<+T> = None | Some(value: T)

  /** Python truthiness of an optional string or list: `None` and the empty sequence are false. */
  predicate Falsy<T>(o: Option<seq<T>>)
  {
    o.None? || o.value == []
  }
}
