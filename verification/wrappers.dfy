/** Option and Result: `Option` stands for a TypeScript `T | null`,
    `Result` for a value that may instead have been thrown as an `Error`. */
module Wrappers {

  datatype Option<+T> = None | Some(value: T)

  datatype Result<+R, +E> = Success(value: R) | Failure(error: E)
}
