/** A value that may be absent: an empty spreadsheet cell, or a regular
    expression that did not match. */
module Optional {

  datatype Option<+T> = None | Some(value: T)
}
