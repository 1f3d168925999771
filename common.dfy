/** Values that may be absent: JavaScript's `null` / `undefined`. */
module Common {

  datatype Option<+T> = None | Some(value: T)

  /** A JavaScript string is truthy exactly when it is non-empty. */
  predicate Truthy(s: string)
  {
    s != ""
  }
}
