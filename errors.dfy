/** Result types and the error values of go-tw: the sentinels declared in
    fs/fs.go, client/client.go and main.go, the two wrappers built around them
    with fmt.Errorf("%w ..."), and the operating-system errors they pass on. */
module Errors {

  datatype Option<+T> = None | Some(value: T)

  datatype Result<+T> = Ok(value: T) | Err(error: Error)

  /** Linux errno values of the operating-system errors the model produces. */
  const ENOENT: nat := 2
  const EISDIR: nat := 21
  const ENOTEMPTY: nat := 39

  datatype Error =
    // fs.ErrFileNotExists, fs.ErrNotInstalled, fs.ErrInvalidPath, fs.ErrIncompleteDownload
    | FileNotExists
    | NotInstalled
    | InvalidPath
    | IncompleteDownload
      // client.ErrHTTP, client.ErrDownloadFailed
    | HTTP
    | DownloadFailed
      // main.ErrMissingVersionArg
    | MissingVersionArg
      // "%w: expected %d bytes, got %d bytes" around ErrIncompleteDownload
    | SizeMismatch(expected: int, written: nat)
      // "%w: %w" joining ErrDownloadFailed and the last attempt's error
    | RetriesExhausted(last: Error)
      // an operating-system error for which os.IsNotExist holds
    | NotExist(code: nat)
      // any other operating-system, transport or decoder error
    | Sys(code: nat)

  /** os.IsNotExist */
  predicate IsNotExist(e: Error) {
    e.NotExist?
  }

  /** errors.Is: `target` is `e` or one of the errors `e` wraps. */
  predicate Is(e: Error, target: Error)
    decreases e
  {
    || e == target
    || (e.SizeMismatch? && target == IncompleteDownload)
    || (e.RetriesExhausted? && (target == DownloadFailed || Is(e.last, target)))
  }
}
