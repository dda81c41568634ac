/**
 * Child processes as `test_packages.py` sees them through `call`: a command
 * run with a timeout either exits, with a return code and its output, or is
 * interrupted when the timeout expires. `call` raises `CalledProcessError`
 * for every non-zero return code and re-raises `TimeoutExpired`; the callers
 * turn the three cases into a status string.
 */
module Process {
  import opened Wrappers

  const StatusSuccess := "success"
  const StatusTimeout := "timeout"
  const StatusFailed := "failed"
  const NotRun := "not run"

  /** Timeouts in seconds of the solve and of the package test. */
  const TimeoutMambaCreate := 3 * 60
  const TimeoutMambabuild := 9 * 60

  /** A command line and the timeout it runs under. */
  datatype Invocation = Invocation(command: seq<string>, timeout: int)

  /** How a child ended; `T` is what its standard output decodes to. */
  datatype Outcome<T> = Exited(code: int, output: T) | TimedOut

  /** The status a caller records for an outcome. */
  function Classify<T>(outcome: Outcome<T>): (status: string)
    ensures status == StatusSuccess <==> outcome.Exited? && outcome.code == 0
    ensures status == StatusTimeout <==> outcome.TimedOut?
    ensures status == StatusFailed <==> outcome.Exited? && outcome.code != 0
  {
    match outcome
    case TimedOut => StatusTimeout
    case Exited(code, _) => if code != 0 then StatusFailed else StatusSuccess
  }

  /** The log written beside a package's results: `<package>/<file>`, for any status but success. */
  function LogPath(package: string, fileName: string, status: string): (r: Option<string>)
    ensures r.Some? <==> status != StatusSuccess
  {
    if status != StatusSuccess then Some(package + "/" + fileName) else None
  }
}
