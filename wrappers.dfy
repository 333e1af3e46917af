/** The optional value used throughout the model: `None` stands for PHP's `null`
    (or an absent array key), `Some(v)` for a present value. */
module Wrappers {

  datatype Option<T> = None | Some(value: T) {

    /** The wrapped value, or `default` when there is none (PHP's `??`). */
    function GetOr(default: T): (r: T)
      ensures Some? ==> r == value
      ensures None? ==> r == default
    {
      match this
      case Some(v) => v
      case None => default
    }
  }
}
