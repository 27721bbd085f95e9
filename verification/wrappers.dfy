/** The optional-value type shared by every module of the model. */
module Wrappers {

  /** Python's `None`-or-value, used for absent documents, failed matches and missing lookups. */
  datatype Option<+T> = None | Some(value: T) {

    /** The wrapped value, or `default` when there is none. */
    function GetOr(default: T): T
    {
      match this
      case Some(v) => v
      case None => default
    }
  }
}
