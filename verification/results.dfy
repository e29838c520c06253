/** Optional values and success-or-error results, used where the loader and
    the query either produce a value or stop with a classified failure. */
module Results {

  datatype Option<+T> = None | Some(value: T)

  datatype Result<+T, +E> = Ok(value: T) | Err(error: E)
}
