/** The error kinds of the engine (lib/src/app_error.rs) and the two
    wrappers the rest of the model returns: `AppResult` stands for
    `error_stack::Result<T, AppError>`, `Option` for Rust's `Option`. */
module Results {

  datatype Option<T> = None | Some(value: T)

  /** `AppError`: only the variants are modelled, not their message texts. */
  datatype AppError =
    | NoWords
    | StdIoRead
    | InvalidCharset
    | InvalidGuessLength(expected: nat)

  datatype AppResult<T> = Ok(value: T) | Err(error: AppError)
}
