/** Failure-carrying values shared by every module of the storage model.

    The Python code signals failures by raising exceptions.  Each exception
    class the modelled code raises is one constructor of `Error`, carrying
    the message text the source passes and, for `DeviceError`, the name of
    the device it concerns.
 */
module Outcomes {

  datatype Option<+T> = None | Some(value: T)

  /** The exception classes raised by the modelled code. */
  datatype Error =
    | DeviceError(msg: string, device: string)
    | ValueError(msg: string)
    | RuntimeError(msg: string)
    | DiskLabelCommitError
      /** what Python raises when a number is called like a function */
    | TypeError(msg: string)
      /** what Python raises when an attribute of `None` is read, or a
          read-only property is assigned */
    | AttributeError(msg: string)
      /** what Python raises when an empty list is indexed */
    | IndexError(msg: string)
      /** what the LVM command wrappers raise when a command fails; their
          messages are not part of this model */
    | LVMError

  /** Either a value or the exception raised instead of returning one. */
  datatype Result<+T> = Ok(value: T) | Err(error: Error) {
    predicate IsFailure() { Err? }

    function PropagateFailure<U>(): Result<U>
      requires Err?
    {
      Err(error)
    }

    function Extract(): T
      requires Ok?
    {
      value
    }
  }
}
