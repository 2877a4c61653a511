/** The errors the solver raises, and the results that carry them. */
module Errors {

  datatype Error =
    | InvalidSize       // puzzle length is not a perfect square
    | InvalidValue      // a cell or row write of the wrong length
    | InvalidCharacter  // a character Python's int() cannot read
    | NoSolutionsFound  // no candidate agrees with a line
    | ZeroStep          // range() called with a step of 0

  datatype Result<T> = Ok(value: T) | Err(error: Error)

  datatype Outcome = Pass | Fail(error: Error)
}
