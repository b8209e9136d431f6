// Results that may be absent, and results that may be an error. Errors carry no
// text: the messages of the original are not modelled.
module Wrappers {

  datatype Option<+T> = None | Some(value: T)

  datatype Result<+T> = Ok(value: T) | Err
}
