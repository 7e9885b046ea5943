/** Small failure-carrying datatypes shared by the pipeline's modules.
    `None` stands for JavaScript's `undefined` where the source reads a
    property that may be missing. */
module Results {

  datatype Option<+T> = None | Some(value: T) {
    /** The value, or `default` when there is none. */
    function GetOr(default: T): T {
      match this
      case Some(v) => v
      case None => default
    }
  }

  datatype Result<+R, +E> = Success(value: R) | Failure(error: E)
}
