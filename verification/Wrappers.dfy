/** Option and Result values shared by the other modules. */
module Wrappers {
  datatype Option<+T> = None | Some(value: T)

  /** `Raise` stands for the exception a Python function leaves with. */
  datatype Result<+T> = Ok(value: T) | Raise(error: Error)

  datatype Error = ExhaustedAddressSpace | AssertionFailed | OverflowError
}
