/** The error kinds raised by the library, one constructor per exception class,
    and the result types that carry them instead of a C++ throw. */
module Errors {

  datatype Error =
    | InitError          // operating on a default-constructed Hermite function
    | MaxDimensionError  // adding beyond the solver's declared capacity
    | SolverError        // reading solver results before solve()
    | BoundError         // eigenstate index at or beyond the reduced dimension
    | InvalidError       // inconsistent guess for a reused label, or a mismatched order list
    | OptimizeError      // generating the optimized basis set before optimize()

  datatype Result<T> = Ok(value: T) | Err(error: Error)

  /** The outcome of an operation that returns nothing but may throw. */
  datatype Outcome = Pass | Fail(error: Error)
}
