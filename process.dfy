/**
 * What running `sh -c` yields (`Command::status`, src/main.rs:112-116)
 * and how a failed run becomes the tool's own exit code (src/main.rs:118-120).
 */
module Process {
  import opened Wrappers

  /** On Unix a child's exit code is one byte, the low 8 bits of what it passed to `exit`. */
  type ExitCode = c: int | 0 <= c <= 255

  /** `std::process::ExitStatus`: `code` is `None` when the child was ended by a signal. */
  datatype ExitStatus = ExitStatus(code: Option<ExitCode>)

  /** The child could not be started, or it ran to some exit status. */
  datatype Spawn = SpawnFailed | Ran(status: ExitStatus)

  /** `ExitStatus::success`: the child exited, with code zero. */
  predicate Succeeded(st: ExitStatus) {
    st.code == Some(0)
  }

  /**
   * The status the parent sees after `std::process::exit(code)`: Unix keeps
   * the low 8 bits, read as a number from 0 to 255.
   */
  function ReportedStatus(code: int): (r: ExitCode)
    ensures 0 <= code <= 255 ==> r == code
    ensures (r - code) % 256 == 0
  {
    code % 256
  }

  /**
   * `status.code().unwrap_or(1)` for a run that did not succeed: a code from
   * 1 to 255, so `exit` with it is reported unchanged and never as success.
   */
  function FailureExitCode(st: ExitStatus): (r: int)
    requires !Succeeded(st)
    ensures 1 <= r <= 255
    ensures ReportedStatus(r) == r
    ensures st.code.Some? ==> r == st.code.value
    ensures st.code.None? ==> r == 1
  {
    st.code.UnwrapOr(1)
  }
}
