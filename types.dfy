/** Basic values shared by the log merger: bytes and lines, 64-bit timestamps,
    the handler's Action codes, Go-style errors and the time handler itself. */
module Types {

  /** One byte of a log file. */
  newtype byte = b: int | 0 <= b < 256

  /** A line as the scanner yields it, without its terminator. */
  type Line = seq<byte>

  /** The line terminator the merger writes after every line. */
  const NEWLINE: byte := 10

  /** Go's int64, the type of the handler's timestamps. */
  newtype int64 = x: int | -0x8000_0000_0000_0000 <= x < 0x8000_0000_0000_0000

  /** Go's `type Action int`: any value is possible, three of them are named. */
  newtype Action = int

  /** No extra option: adopt the line. Every value other than SKIP and STOP acts like this one. */
  const NOP: Action := 0
  /** Skip this line and read the next one of the same file. */
  const SKIP: Action := 1
  /** Stop merging and return the handler's error. */
  const STOP: Action := 2

  /** A Go `error`: `nil`, or an error carrying its message. */
  datatype Error = Nil | Err(message: string)

  /** What the time handler returns for one line: `(int64, Action, error)`. */
  datatype Verdict = Verdict(timestamp: int64, action: Action, err: Error)

  /** `TimeHandler func([]byte) (int64, Action, error)`, kept uninterpreted. */
  type TimeHandler = Line -> Verdict
}
