/** Failure-carrying results shared by the other modules. */
module Wrappers {

  datatype Option<+T> = None | Some(value: T)

  function Prepend<T>(x: T, r: Option<seq<T>>): Option<seq<T>> {
    if r.Some? then Some([x] + r.value) else None
  }

  datatype Result<+T, +E> = Ok(value: T) | Err(error: E)
}
