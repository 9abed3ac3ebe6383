/** A value that may be missing, as a JavaScript property that may be absent. */
module Values {

  datatype Option<+T> = None | Some(value: T)
}
