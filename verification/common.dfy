/** Option and Result values shared by the whole model. `Option` stands for a
    JavaScript value that may be `undefined`; `Result` for an operation that
    may throw. */
module Common {

  datatype Option<+T> = None | Some(value: T)

  datatype Result<+R, +E> = Success(value: R) | Failure(error: E)
}
