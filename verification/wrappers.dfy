/** Failure-compatible helper datatypes shared by the other modules. */
module Wrappers {

  /** The conventional Some/None datatype; `None` stands for Python's `None` or for "no match". */
  datatype Option<+T> = None | Some(value: T) {

    /** The carried value, or `default` when there is none (Python's `x or default` on an optional group). */
    function GetOr(default: T): T {
      match this
      case Some(v) => v
      case None => default
    }
  }
}
