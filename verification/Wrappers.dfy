/** The usual optional value, and a value or an error. */
module Wrappers {
  datatype Option<+T> = None | Some(value: T)
  datatype Result<+T> = Success(value: T) | Failure(error: string)
}

/** Tensor shapes. */
module Shapes {
  function Numel(shape: seq<nat>): nat
  {
    if shape == [] then 1 else Numel(shape[..|shape| - 1]) * shape[|shape| - 1]
  }
}
