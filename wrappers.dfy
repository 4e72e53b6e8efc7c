/** The optional value used wherever the pipeline may have nothing: a failed download,
    a skipped row, a JavaScript NaN. */
module Wrappers {
  datatype Option<+T> = None | Some(value: T) {
    function GetOr(default: T): T {
      match this
      case Some(v) => v
      case None => default
    }
  }
}
