/** Optional values: the model's stand-in for `undefined` / `null` and for
    the absent keys of a TypeScript `Partial<T>`. */
module Wrappers {

  datatype Option<+T> = None | Some(value: T) {

    /** The wrapped value, or `default` when there is none. */
    function GetOr(default: T): T {
      match this
      case Some(v) => v
      case None => default
    }
  }
}
