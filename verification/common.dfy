/** Value types shared by the half-edge container and the Voronoi generator. */
module Common {

  /** An object reference that may be null: `None` stands for the null reference. */
  datatype Option<T> = None | Some(value: T)

  /** The exceptions the modelled C# code can raise. */
  datatype Fault =
    | NullReference  // NullReferenceException: a field was read through a null reference
    | DuplicateKey   // ArgumentException from Dictionary.Add on a key already present
    | KeyNotFound    // KeyNotFoundException from a Dictionary lookup of an absent key
    | IndexOutOfRange  // IndexOutOfRangeException: an array was indexed below zero

  /** The outcome of an operation that either returns a value or throws. */
  datatype Result<T> = Success(value: T) | Failure(fault: Fault)

  /** A point of the plane; coordinates are exact reals (no IEEE rounding). */
  datatype Point = Point(x: real, y: real)
}
