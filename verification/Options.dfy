/** The value-or-nothing type shared by the other modules (Python's `T | None`). */
module Options {

  datatype Option<+T> = None | Some(value: T)
}
