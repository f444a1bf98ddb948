/**
 * The two failure kinds the core signals, and the result shapes used in place
 * of the C++ code's exceptions. Every failure is detected before any state is
 * written, so a failed call leaves its object unchanged.
 */
module Outcomes {

  /** OutOfBound: an index or id outside its current range (the CUTCheck* macros).
      Assertion: a violated domain condition (the CUTAssert macro). */
  datatype Error = OutOfBound | Assertion

  /** The outcome of a query that returns a value. */
  datatype Result<T> = Ok(value: T) | Fail(error: Error)

  /** The outcome of an operation that returns nothing. */
  datatype Outcome = Success | Failure(error: Error)
}
