/**
 * Outcomes of the extension's operations. The source signals failure by
 * rejecting a promise or throwing; in this model every failure is a value.
 */
module Results {

  /** A value that may be null or undefined on the host side. */
  datatype Option<T> = None | Some(value: T)

  /**
   * Why an operation failed. Most promises in the source reject with `false`
   * after logging a reason; the reason is kept here so that contracts can say
   * which check failed.
   */
  datatype Error =
    | MkdirFailed(path: string)        // the host's mkdir threw
    | OpenFailed(path: string)         // open(path, "w+") gave no handle or threw
    | NotADirectory(path: string)
    | NotWritable(path: string)
    | MissingWorkspacePath
    | NotWorkspace(messageKey: string) // carries the localisation key of the message
    | NoReadme(path: string)

  /** A promise that resolves with a value or rejects with an error. */
  datatype Result<T> = Ok(value: T) | Err(error: Error)

  /** A promise whose resolved value carries no information (`resolve(true)`). */
  datatype Outcome = Pass | Fail(error: Error)
}
