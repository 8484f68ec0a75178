/** A value that may be absent: the model's stand-in for a JavaScript `undefined`
    result or a query that returned no row. */
module Options {
  datatype Option<+T> = None | Some(value: T)
}
