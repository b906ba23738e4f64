/** Optional values: JavaScript's `undefined`/`null` next to a present value. */
module Options {
  datatype Option<+T> = None | Some(value: T)

  /** A value, or the exception a JavaScript function throws instead of returning it. */
  datatype Result<+T> = Ok(value: T) | Thrown(error: string)
}
