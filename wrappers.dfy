// Optional values, as the Python code's `None` and the TypeScript code's
// `undefined` are used throughout the pipeline.
module Wrappers {
  datatype Option<+T> = None | Some(value: T)
  {
    predicate IsSome() { Some? }

    function GetOr(default: T): T
    {
      match this
      case None => default
      case Some(v) => v
    }
  }
}
