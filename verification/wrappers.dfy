/** Option and Result datatypes for the event-tree model.

    `Option` stands for a dictionary key that may be absent (Python's
    `dict.get(key, default)` is `GetOr(default)`); `Result` stands for an
    operation that may raise one of the Python exceptions the source can
    raise on its own inputs.
 */
module Wrappers {

  datatype Option<+T> = None | Some(value: T) {

    /** The carried value, or `default` when there is none. */
    function GetOr(default: T): T
    {
      match this
      case Some(v) => v
      case None => default
    }
  }

  /** The exceptions the modelled Python code can raise. */
  datatype Error =
    | KeyError       // `d[k]` or `del d[k]` with `k` not a key
    | StopIteration  // `next(...)` over an empty generator

  datatype Result<+T> = Ok(value: T) | Err(error: Error)
}
