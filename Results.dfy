/** Failure-carrying results shared by every module of the model.
    The source reports failures by throwing; the model returns them. */
module Results {

  /** The exception kinds the modelled code raises, by the condition that raises them. */
  datatype Error =
    | NullBuffer          // a null byte buffer ("Buffer is null.", "Byte buffer is invalid.", ArgumentNullException)
    | StartPosOutOfRange  // a start position outside the buffer ("StartPos ArgumentOutOfRange.")
    | BufferTooShort      // BitConverter: fewer bytes after the start position than the value needs
    | InvalidParam        // FrameworkException "Param not legal" / "Param is invalid."
    | InvalidSize         // FrameworkException "Malloc size is invalid." / "Structure size is invalid."
    | InvalidStartIndex   // FrameworkException "Start index is invalid."
    | BufferNotEnough     // FrameworkException "Byte buffer is not enough."
    | OutOfMemory         // AllocHGlobal refused the requested size
    | IndexOutOfRange     // IndexOutOfRangeException from an array or string index
    | CopyOutOfRange      // Marshal.Copy: the range lies outside the managed array (ArgumentOutOfRangeException)
    | DivideByZero        // DivideByZeroException
    | Overflow            // OverflowException (int.MinValue / -1, or an array size that wrapped negative)

  datatype Result<+T> = Ok(value: T) | Err(error: Error)

  /** The result of an operation that returns nothing on success. */
  datatype Outcome = Pass | Fail(error: Error)

  /** A C# reference that may be null. */
  datatype Option<+T> = None | Some(value: T)
}
