/** Stock result types shared by every module. */
module Wrappers {

  datatype Option<+T> = None | Some(value: T)

  /** `fty::Expected`: a value, or the text of an error. */
  datatype Expected<+T> = Ok(value: T) | Err(error: string)
}
