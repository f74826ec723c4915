/** The optional value used throughout the model for JavaScript's `undefined`. */
module Wrappers {

  /** `None` stands for `undefined`; `Some(v)` for a defined value `v`. */
  datatype Option<+T> = None | Some(value: T) {

    /** Returns the value held in `Some`, or `default` for `None`
        (the `??` operator of the source). */
    function GetOr(default: T): T {
      match this
      case Some(v) => v
      case None => default
    }
  }
}
