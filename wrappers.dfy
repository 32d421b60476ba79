/** Option and Result, the two outcome shapes the model uses in place of
    JavaScript's `undefined` and thrown errors. */
module Wrappers {

  /** `None` stands for a JavaScript `undefined` (a miss, no match). */
  datatype Option<+T> = None | Some(value: T)

  /** `Err` stands for a thrown error; `Ok` for a normal return. */
  datatype Result<+T, +E> = Ok(value: T) | Err(error: E)
}
