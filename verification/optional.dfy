/** Values that may be absent: a key missing from a file, a file missing from the directory. */
module Optional {

  datatype Option<T> = None | Some(value: T)

  /** The value when there is one, `fallback` otherwise (Python's `d.get(key, fallback)`). */
  function ValueOr<T>(o: Option<T>, fallback: T): T {
    if o.Some? then o.value else fallback
  }
}
