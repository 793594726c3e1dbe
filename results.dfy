/** Failure signals of the statistics: a computation either yields a value or names
    the reason it has none. */
module Results {

  datatype Error =
    | ShapeMismatch      // paired vectors of different lengths
    | DivisionUndefined  // a normalising denominator (inc - dec, n, or se) is zero

  datatype Result<T> = Ok(value: T) | Err(error: Error)
}
