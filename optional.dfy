/** A value that may be absent: the `None` that app.py returns from its best-effort helpers. */
module Optional {
  datatype Option<T> = None | Some(value: T)
}
