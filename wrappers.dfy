/** Option and Result, used for values that the source represents with None or with a raised exception. */
module Wrappers {

  datatype Option<+T> = None | Some(value: T)

  /** `Err` stands for an exception that leaves the operation; `msg` names its cause. */
  datatype Result<+T> = Ok(value: T) | Err(msg: string)
}
