/** The conventional Some/None datatype, used wherever the orchestrator
    returns `None` or an absent value. */
module Opt {

  datatype Option<+T> = None | Some(value: T) {

    /** Returns the value in Some, or `default` for None (Python's `x or default`). */
    function GetOr(default: T): T {
      match this
      case Some(v) => v
      case None => default
    }
  }
}
