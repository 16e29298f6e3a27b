/** A value that may be absent: a NaN table cell, an omitted command-line option. */
module Optional {

  datatype Option<+T> = None | Some(value: T)
}
