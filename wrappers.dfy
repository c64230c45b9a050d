/** Failure-carrying results shared by the whole model: the exceptions the
    source throws become the `Failure` side of a `Result`. */
module Wrappers {

  datatype Option<+T> = None | Some(value: T)

  /** The error conditions the modelled code can raise. */
  datatype Error =
    | NotDetermined          // reading the pattern of a cell that has not collapsed
    | IndexOutOfRange        // an index outside an array or list
    | RandomValueOutOfRange  // a weighted pick that found no element

  datatype Result<+T> = Success(value: T) | Failure(error: Error)
}
