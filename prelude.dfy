/** Limits of the shell and the two failure-carrying wrappers used throughout the model. */
module Prelude {

  /** Capacity of the background job queue. */
  const MAX_BG_JOBS: nat := 16
  /** Largest number of pipeline stages that are kept. */
  const MAX_COMMANDS: nat := 4
  /** Largest number of plain arguments per stage. */
  const MAX_ARGS_PER_CMD: nat := 16
  /** Size of the command-line buffers, terminator included. */
  const CMDLINE_MAX: nat := 512

  datatype Option<+T> = None | Some(value: T)

  datatype Result<+T, +E> = Success(value: T) | Failure(error: E)

  /** The first `n` elements of `s`, or all of `s` when it is shorter. */
  function Take<T>(s: seq<T>, n: nat): (r: seq<T>)
    ensures |r| == if |s| <= n then |s| else n
    ensures r == s[..|r|]
  {
    if |s| <= n then s else s[..n]
  }
}
