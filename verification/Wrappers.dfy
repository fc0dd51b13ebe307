/** The optional value that stands for a C pointer which may be NULL. */
module Wrappers {
  datatype Option<+T> = None | Some(value: T)

  function OrElse<T>(o: Option<T>, d: Option<T>): Option<T> { if o.Some? then o else d }
}
