/** Failure-carrying values shared by every module: the exceptions the C# code
    throws become `Error` values returned through `Result` and `Outcome`. */
module Wrappers {

  datatype Option<+T> = None | Some(value: T) {
    function GetOr(default: T): T {
      match this
      case Some(v) => v
      case None => default
    }
  }

  /** The .NET exception kinds the modelled code can raise. */
  datatype Error =
    | ArgumentNull          // ArgumentNullException
    | ArgumentEmpty         // ArgumentException for an empty path
    | ArgumentOutOfRange    // Substring / indexer out of range
    | BadIndexes            // ArgumentException("indexes") of the expando object
    | DirectoryNotFound     // DirectoryNotFoundException
    | FileNotFound          // FileNotFoundException
    | FileExists            // IOException: copy without overwrite onto an existing file
    | TargetIsDirectory     // UnauthorizedAccessException / IOException: a file operation on a directory
    | NullReference         // NullReferenceException
    | FormatError           // FormatException from int.Parse
    | Overflow              // OverflowException from int.Parse
    | DateOutOfRange        // ArgumentOutOfRangeException from the DateOnly constructor
    | StaticPathMissing     // "Please specify `staticPath` metadata for posts without date"
    | JsonError             // JsonException, or metadata that deserialises to null
    | StackOverflow         // unbounded recursion

  datatype Result<+T> = Ok(value: T) | Err(error: Error) {
    predicate IsFailure() {
      Err?
    }

    function PropagateFailure<U>(): Result<U>
      requires Err?
    {
      Err(error)
    }

    function Extract(): T
      requires Ok?
    {
      value
    }
  }

  /** The result of a `Task`/`void` operation: it completes or it throws. */
  datatype Outcome = Done | Failed(error: Error)
}
