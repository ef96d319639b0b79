/** Rust's `Option`, for the engine's lookups that can miss. */
module Wrappers {

  datatype Option<T> = None | Some(value: T)

  /** `unwrap_or`: the value held, or `fallback` when there is none. */
  function UnwrapOr<T>(o: Option<T>, fallback: T): (r: T)
    ensures o.Some? ==> r == o.value
    ensures o.None? ==> r == fallback
  {
    if o.Some? then o.value else fallback
  }
}
