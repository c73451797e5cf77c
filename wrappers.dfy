/** Optional values and results with a failure value, used at the boundary
    of every accessor: absent versus present, success versus a fault. */
module Wrappers {

  datatype Option<+T> = None | Some(value: T)

  datatype Result<+T, +E> = Ok(value: T) | Err(error: E)

  datatype Outcome<+E> = Pass | Fail(error: E)
}
