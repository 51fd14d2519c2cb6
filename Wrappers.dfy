/** Optional values: the model's rendering of a JavaScript `T | undefined`. */
module Wrappers {

  datatype Option<+T> = None | Some(value: T) {

    /** The value, or `default` when there is none (JavaScript's `??`). */
    function GetOr(default: T): T {
      match this
      case Some(v) => v
      case None => default
    }
  }

  /** The outcome of a scraper lookup: a result, `undefined` when nothing
      matched, or a call to `bug()`, which throws and rejects the lookup. */
  datatype Lookup<+T> = Found(value: T) | NoMatch | Defect
}
