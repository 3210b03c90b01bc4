/** Failure-carrying values shared by the whole model.

    Every place where the Go code panics (an index out of range, a method
    called through a nil interface) or divides zero by zero becomes an `Err`
    carrying one of the `Error` values below. */
module Base {

  datatype Option<+T> = None | Some(value: T)

  datatype Error =
    | NilCounts         // Unique increments an element of a nil counts slice
    | RowTooLong        // Round writes past the end of a row of width cols
    | EmptySubset       // Max/Min read Data[0] of an empty matrix
    | DegenerateSubset  // every range is zero, so the ranges are divided 0/0
    | IndexOutOfRange   // [0] of an empty index list
    | OutOfDraws        // the injected random source has no draws left
    | NilChild          // the bounding-box pass meets a nil child

  datatype Result<+T> = Ok(value: T) | Err(error: Error)
}
