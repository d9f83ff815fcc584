/** Small datatypes shared by every component. */
module Common {

  /** A value that may be absent. */
  datatype Option<+T> = None | Some(value: T)

  /** The return codes of the C sources. */
  datatype Status = SUCCESS | ERROR
}
