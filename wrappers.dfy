/** Option and Result values: Option stands for a table cell that may be NaN,
    Result for a stage of the run that either yields its table or aborts. */
module Wrappers {

  datatype Option<+T> = None | Some(value: T)

  datatype Result<+T, +E> = Ok(value: T) | Err(error: E)
}
