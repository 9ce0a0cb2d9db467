/** An optional value: stands for a JavaScript property that may be undefined or null. */
module Wrappers {

  datatype Option<+T> = None | Some(value: T) {

    /**
     * The value, or `default` when it is absent. Unlike JavaScript's
     * `x || default`, a present falsy value is kept; the two agree where the
     * default is the empty string, as in `text || ''`.
     */
    function GetOr(default: T): T
    {
      match this
      case Some(v) => v
      case None => default
    }
  }
}
