/** The value-or-error shape every fallible operation of the library returns (include/etlx/core/result.hpp). */
module Core {
  datatype Option<+T> = None | Some(value: T)

  datatype Result<+T, +E> = Ok(value: T) | Err(error: E)
}
