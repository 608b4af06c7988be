/** Option and Result, the two failure-carrying shapes the program uses:
    `split_once` answers with an Option, `convert_day_to_url` with a Result. */
module Wrappers {

  datatype Option<+T> = None | Some(value: T)

  datatype Result<+R, +E> = Ok(value: R) | Err(error: E)
}
