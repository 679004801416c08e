/** The result types shared by the models: an absent value and a thrown error. */
module Wrappers {

  datatype Option<+T> = None | Some(value: T)

  /** A returned value, or the numeric id of the exception that was thrown. */
  datatype Result<+T> = Ok(value: T) | Err(id: nat)
}
