/** Failure-carrying values shared by every module of the model.

    The tool itself reports every problem by throwing; the model turns each
    throw into an `Err` that carries what the thrower would have said. */
module Results {

  /** A value that may be absent: `undefined`/`null` in the tool. */
  datatype Option<+T> = None | Some(value: T) {
    function GetOr(default: T): T {
      match this
      case Some(v) => v
      case None => default
    }
  }

  /** Why a run stopped. */
  datatype Error =
      /** An `Error` the tool raises itself, with its message. */
    | Failed(message: string)
      /** A file-system error other than "not found" while reading a file,
          rethrown unchanged. */
    | ReadFailed(filename: string, cause: string)
      /** The file system refused to store a file. */
    | WriteFailed(filename: string, cause: string)
      /** The semantic-version parser rejected this string; its exception
          propagates unchanged. */
    | InvalidSemVer(input: string)

  datatype Result<+T> = Ok(value: T) | Err(error: Error)
}
