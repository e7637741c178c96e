/** Results of operations that the source ends with a return value or with an exception. */
module Wrappers {

  datatype Option<+T> = None | Some(value: T)
  {
    function GetOr(default: T): T { if Some? then value else default }
  }

  /** `Err` carries the fixed, value-free message of the source's exception. */
  datatype Result<+T> = Ok(value: T) | Err(message: string)
}
