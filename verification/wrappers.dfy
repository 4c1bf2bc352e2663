/** Failure-carrying values shared by every day: a Rust `panic!`, a failed
    `unwrap` or an exhausted fuel bound is modelled as `None`. */
module Wrappers {

  datatype Option<+T> = None | Some(value: T) {

    function GetOr(default: T): T {
      match this
      case Some(v) => v
      case None => default
    }
  }
}
