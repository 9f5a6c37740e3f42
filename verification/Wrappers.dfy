/** What a Go function returns as a pointer that may be nil, or as (value, ok). */
module Wrappers {
  datatype Option<+T> = None | Some(value: T)
}
