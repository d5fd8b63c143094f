/** The option type shared by the models. */
module Wrappers {
  datatype Option<+T> = None | Some(value: T)

  function Or<T>(a: Option<T>, b: Option<T>): Option<T> {
    if a.Some? then a else b
  }
}
