/** The absent-or-present and stop-or-continue datatypes shared by the
    modules of the model. `Option` stands for JavaScript's `undefined`/`null`
    versus a present value; `Result` stands for an early
    `return res.status(…)` versus carrying on. */
module Wrappers {

  datatype Option<+T> = None | Some(value: T)

  datatype Result<+R, +E> = Success(value: R) | Failure(error: E)
}
