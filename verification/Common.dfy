/** Datatypes shared by every component of the model. */
module Common {

  datatype Option<+T> = None | Some(value: T) {
    function GetOr(default: T): T {
      match this
      case Some(v) => v
      case None => default
    }
  }

  /** A service call either answers or throws; a throw leaves the database as it was. */
  datatype Result<+T, +E> = Ok(value: T) | Err(error: E)
}
