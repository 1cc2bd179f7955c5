/**
 * The children of the shell as `waitpid(pid, &status, WNOHANG)` sees them.
 * A child is either still running or has terminated and waits to be
 * reaped; reaping it removes it, so a second wait on it fails.
 */
module Processes {
  import opened Report

  /** A process id (`pid_t`). */
  type Pid = int

  /** How a terminated child ended: through `exit` (`WIFEXITED`) or otherwise. */
  datatype ExitStatus = ExitedWith(code: ExitCode) | Signalled

  datatype Child = Live | Zombie(status: ExitStatus)

  /** The children not yet reaped. */
  type Table = map<Pid, Child>

  /**
   * What one non-blocking wait reports: 0 (still running), a reaped child
   * that exited, a reaped child that did not exit, or a failure (-1).
   */
  datatype WaitResult = Running | Exited(code: ExitCode) | NotExited | Error

  predicate IsLive(t: Table, pid: Pid)
  {
    pid in t && t[pid] == Live
  }

  /** A non-blocking wait on `pid`, and the children left afterwards. */
  function Wait(t: Table, pid: Pid): (r: (WaitResult, Table))
    ensures r.0 == Running <==> IsLive(t, pid)
    ensures r.0 == Error <==> pid !in t
    ensures r.0 != Running ==> r.1 == t - {pid}
    ensures r.0 == Running ==> r.1 == t
  {
    if pid !in t then (Error, t)
    else
      match t[pid]
      case Live => (Running, t)
      case Zombie(s) => (if s.ExitedWith? then Exited(s.code) else NotExited, t - {pid})
  }

  /** The code a terminated child contributes to a report: its exit code, or 0 when it did not exit. */
  function CodeOf(w: WaitResult): nat
  {
    if w.Exited? then w.code else 0
  }

  /**
   * The kernel's side of the shell's children. The table is handed in
   * rather than produced by `fork`, which is not part of this model.
   */
  class ProcessTable {
    var children: Table

    constructor(children: Table)
      ensures this.children == children
    {
      this.children := children;
    }

    /** `waitpid(pid, &status, WNOHANG)`. */
    method WaitNoHang(pid: Pid) returns (r: WaitResult)
      modifies this
      ensures (r, children) == Wait(old(children), pid)
    {
      if pid !in children {
        return Error;
      }
      match children[pid]
      case Live =>
        r := Running;
      case Zombie(s) =>
        r := if s.ExitedWith? then Exited(s.code) else NotExited;
        children := children - {pid};
    }
  }
}
