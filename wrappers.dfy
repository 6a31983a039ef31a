/** Optional values (C#'s nullable `T?`) and pass/fail outcomes (a method that either returns or throws). */
module Wrappers {

  /** `None` is C#'s `null`; `Some(v)` a value that `HasValue`. */
  datatype Option<+T> = None | Some(value: T)

  /** `Pass` is a normal return; `Fail(e)` a thrown exception carrying `e`. */
  datatype Outcome<+E> = Pass | Fail(error: E)
}
