/** Failure-carrying values and the exceptions the watcher raises.

    PHP exceptions become `Failure(Exc(...))` values: every function that can
    throw in the source returns a `Result`, and the exception's class, message
    text and numeric code are all kept, because the watcher logs the message
    and the codes identify the throw site. */
module Errors {

  datatype Option<+T> = None | Some(value: T) {
    function GetOr(default: T): T {
      match this
      case Some(v) => v
      case None => default
    }
  }

  datatype Result<+R> = Success(value: R) | Failure(error: Exc) {
    predicate IsFailure() {
      Failure?
    }

    function PropagateFailure<U>(): Result<U>
      requires Failure?
    {
      Failure(error)
    }

    function Extract(): R
      requires Success?
    {
      value
    }
  }

  /** The exception classes thrown by the core. `Runtime` is SPL's
      RuntimeException (raised by SplFileInfo::getMTime on a missing file). */
  datatype ExcKind =
    | CommandExecution
    | InvalidPath
    | MissingDependency
    | ProcessAlreadyRunning
    | InvalidArgument
    | Runtime

  datatype Exc = Exc(kind: ExcKind, message: string, code: int)

  // Exception codes, one per throw site.
  const MonitorPathMissing: int := 1353534222
  const InotifyNotFound: int := 1353535595
  const InotifyPathMissing: int := 1353536088
  const InotifyAlreadyRunning: int := 1353536039
  const InotifyStartFailed: int := 1353536690
  const SourceNotAFile: int := 1353619162
  const ServiceTransportFailed: int := 1353627327
  const ServiceDecodeFailed: int := 1355177681
  const ServiceServerError: int := 1355180897
  const ResponseUnparsable: int := 1355352825
  const ResponseUnknownType: int := 1355352906
  const MessageNotClassified: int := 1355353270
  const NoCompilerAvailable: int := 1355441071
}
