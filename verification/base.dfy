/** Shared vocabulary of the shim model: bytes, optional values, the result of
    a child process, and the Outcome that replaces `sys.exit` / `SystemExit`. */
module Base {

  /** One byte of a `bytes` value. */
  type byte = b: int | 0 <= b < 0x100

  /** The line-feed byte `b"\x0a"`. */
  const LF: byte := 0x0A

  datatype Option<+T> = None | Some(value: T)

  /** What a finished child process hands back: captured stdout, captured
      stderr and its return code. */
  datatype ExecResult = ExecResult(stdout: seq<byte>, stderr: seq<byte>, code: int)

  /** The output a command object has collected so far and its return code. */
  datatype Buffers = Buffers(stdout: seq<byte>, stderr: seq<byte>, code: int)

  /** How a step of the shim ends.
      - `Continue(value)`: the step returned normally with `value`.
      - `Exit(code, stderr)`: the process ends through `sys.exit(code)` /
        `SystemExit(code)` after writing exactly `stderr` to the error stream.
      - `Abort(exception)`: the process ends through an exception the shim
        does not catch (or an argparse usage error); the model records only its kind.
      It is failure-compatible, so `:-` threads the normal path. */
  datatype Outcome<+T> = Continue(value: T) | Exit(code: int, stderr: seq<byte>) | Abort(exception: string) {

    predicate IsFailure() {
      !Continue?
    }

    function PropagateFailure<U>(): Outcome<U>
      requires !Continue?
    {
      match this
      case Exit(c, e) => Exit(c, e)
      case Abort(x) => Abort(x)
    }

    function Extract(): T
      requires Continue?
    {
      value
    }
  }

  /** Exception kinds that end the process uncaught. */
  const ValueError := "ValueError"
  const IndexError := "IndexError"
  const UsageError := "argparse usage error"
  const DecodeError := "UnicodeDecodeError"
}
