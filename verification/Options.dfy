/** A value that may be missing, standing for the sources' `nil`, `null` and error returns. */
module Options {

  datatype Option<+T> = None | Some(value: T)
}
