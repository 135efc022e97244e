/** Vocabulary shared by every module: nullable values, outcomes, the .NET
    exceptions the modelled code throws, and the fixed-width integers of the
    managed side. */
module Common {

  /** A reference that may be null. */
  datatype Option<+T> = None | Some(value: T)

  /** A call that returns a value or throws. */
  datatype Result<+R, +E> = Success(value: R) | Failure(error: E)

  /** A call that returns nothing or throws. */
  datatype Outcome<+E> = Pass | Fail(error: E)

  /** The exceptions raised by the modelled code, one constructor per .NET
      exception type, carrying the argument the code passes to it. */
  datatype Error =
    | PipelineException(message: string)
    | PropertyMissingException(property: string)
    | GeneralException(message: string)
    | NullReferenceException
    | IndexOutOfRangeException
    | KeyNotFoundException
    | ArgumentNullException(paramName: string)
    | ArgumentOutOfRangeException(paramName: string)
    | ArgumentException(message: string)
    | InvalidOperationException(message: string)
    | ApplicationException(message: string)
    | MarshalDirectiveException(message: string)

  /** System.Byte. */
  type byte = x: int | 0 <= x < 0x100

  /** System.Int32. */
  type int32 = x: int | -0x8000_0000 <= x < 0x8000_0000

  /** System.UInt32. */
  type uint32 = x: int | 0 <= x < 0x1_0000_0000
}
