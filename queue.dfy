/**
 * The background job queue: a fixed array of `MAX_BG_JOBS` slots whose
 * first `numJobs` are the live jobs, oldest first.
 */
module Queue {
  import opened Prelude
  import opened Report
  import opened Processes
  import opened Poll

  /**
   * The member loop of `check_completed_bg_jobs`: wait on each member in
   * turn, stop at the first still running, and keep the exit codes in a
   * local array of `MAX_COMMANDS` zeros.
   */
  method PollMembersOf(pids: seq<Pid>, procs: ProcessTable) returns (allCompleted: bool, exitStatus: array<nat>)
    requires |pids| <= MAX_COMMANDS
    modifies procs
    ensures fresh(exitStatus) && exitStatus.Length == MAX_COMMANDS
    ensures var r := PollMembers(pids, old(procs.children));
      allCompleted == r.0 && exitStatus[..|r.1|] == r.1 && procs.children == r.2
  {
    allCompleted := true;
    exitStatus := new nat[MAX_COMMANDS](_ => 0);
    ghost var t0 := procs.children;
    var i := 0;
    assert pids[0..] == pids && exitStatus[..0] == [];
    assert [] + PollMembers(pids, t0).1 == PollMembers(pids, t0).1;
    while i < |pids|
      invariant 0 <= i <= |pids|
      invariant forall k :: i <= k < MAX_COMMANDS ==> exitStatus[k] == 0
      invariant var r := PollMembers(pids[i..], procs.children);
        PollMembers(pids, t0) == (r.0, exitStatus[..i] + r.1, r.2)
    {
      ghost var codes := exitStatus[..i];
      ghost var w := Wait(procs.children, pids[i]).0;
      PollMembersStep(pids, t0, i, codes, procs.children);
      var running := WaitMember(pids[i], i, procs, exitStatus);
      if running {
        allCompleted := false;
        break;
      }
      assert exitStatus[..i + 1] == codes + [CodeOf(w)];
      i := i + 1;
    }
    assert i == |pids| ==> pids[i..] == [];
  }

  /**
   * One round of the member loop: wait on `pid` and, when it has exited,
   * record its code in slot `i` of the local array.
   */
  method WaitMember(pid: Pid, i: nat, procs: ProcessTable, exitStatus: array<nat>) returns (running: bool)
    requires i < exitStatus.Length && exitStatus[i] == 0
    modifies procs, exitStatus
    ensures var w := Wait(old(procs.children), pid);
      && running == (w.0 == Running)
      && procs.children == w.1
      && exitStatus[..] == if running then old(exitStatus[..]) else old(exitStatus[..])[i := CodeOf(w.0)]
  {
    var result := procs.WaitNoHang(pid);
    if result.Exited? {
      exitStatus[i] := result.code;
    }
    running := result == Running;
  }

  /** Writing `v` just past `kept` in `kept + rest` extends `kept` by `v` and drops the head of `rest`. */
  lemma PlaceNext<T>(kept: seq<T>, v: T, rest: seq<T>)
    requires |rest| > 0
    ensures (kept + rest)[|kept| := v] == (kept + [v]) + rest[1..]
  {
  }

  /** Writing `v` just past `done` in `done + (todo + rest)` moves the head of `todo` over to `done`. */
  lemma PlaceBefore<T>(done: seq<T>, v: T, todo: seq<T>, rest: seq<T>)
    requires |todo| > 0
    ensures (done + (todo + rest))[|done| := v] == (done + [v]) + (todo[1..] + rest)
  {
  }

  class BgJobQueue {
    const jobs: array<BackgroundJob>
    var numJobs: int

    /** The slots are `MAX_BG_JOBS` jobs of at most `MAX_COMMANDS` members each, and the count fits. */
    ghost predicate Valid()
      reads this, jobs
    {
      && jobs.Length == MAX_BG_JOBS
      && 0 <= numJobs <= MAX_BG_JOBS
      && forall k :: 0 <= k < jobs.Length ==> |jobs[k].pids| <= MAX_COMMANDS
    }

    /** The live jobs, oldest first. */
    function Contents(): seq<BackgroundJob>
      reads this, jobs
      requires Valid()
    {
      jobs[..numJobs]
    }

    /** Every live job is still active, as holds between polls. */
    ghost predicate AllActive()
      reads this, jobs
      requires Valid()
    {
      forall k :: 0 <= k < numJobs ==> jobs[k].active
    }

    /** The queue as static storage starts: every slot zeroed, no jobs. */
    constructor()
      ensures Valid() && fresh(jobs)
      ensures Contents() == [] && AllActive()
      ensures forall k :: 0 <= k < jobs.Length ==> jobs[k] == Idle
    {
      jobs := new BackgroundJob[MAX_BG_JOBS](_ => Idle);
      numJobs := 0;
    }

    /** `init_bg_queue`: no jobs, and every slot inactive with no command and no members. */
    method Init()
      requires Valid()
      modifies this, jobs
      ensures Valid() && Contents() == [] && AllActive()
      ensures forall k :: 0 <= k < jobs.Length ==>
        jobs[k] == old(jobs[k]).(active := false, command := "", pids := [])
    {
      numJobs := 0;
      for i := 0 to MAX_BG_JOBS
        invariant numJobs == 0
        invariant forall k :: 0 <= k < i ==> jobs[k] == old(jobs[k]).(active := false, command := "", pids := [])
        invariant forall k :: i <= k < jobs.Length ==> jobs[k] == old(jobs[k])
      {
        jobs[i] := jobs[i].(active := false, command := "", pids := []);
      }
    }

    /**
     * `add_bg_job`: append a job with the first `pidCount` pids and a copy
     * of the command, or answer -1 when the queue is full.
     */
    method AddJob(pids: seq<Pid>, pidCount: int, command: string) returns (r: int)
      requires Valid()
      requires 0 <= pidCount <= |pids| && pidCount <= MAX_COMMANDS
      requires forall k :: 0 <= k < pidCount ==> pids[k] > 0
      modifies this, jobs
      ensures Valid()
      ensures r == (if old(numJobs) >= MAX_BG_JOBS then -1 else 0)
      ensures r == -1 ==> numJobs == old(numJobs) && jobs[..] == old(jobs[..])
      ensures r == 0 ==>
        && Contents() == old(Contents()) + [BackgroundJob(pids[..pidCount], command, true)]
        && jobs[numJobs..] == old(jobs[..])[numJobs..]
      ensures old(AllActive()) ==> AllActive()
    {
      if numJobs >= MAX_BG_JOBS {
        return -1;
      }
      var index := numJobs;
      var copied: seq<Pid> := [];
      for i := 0 to pidCount
        invariant copied == pids[..i]
      {
        copied := copied + [pids[i]];
      }
      jobs[index] := BackgroundJob(copied, command, true);
      numJobs := numJobs + 1;
      assert Contents() == old(Contents()) + [jobs[index]];
      return 0;
    }

    /**
     * One pass of the marking loop: poll the job in slot `idx`; when all its
     * members are done, report it and retire it.
     */
    method PollSlot(idx: int, procs: ProcessTable) returns (lines: seq<string>)
      requires Valid() && 0 <= idx < jobs.Length
      modifies jobs, procs
      ensures Valid()
      ensures var r := PollOne(old(jobs[idx]), old(procs.children));
        jobs[..] == old(jobs[..])[idx := r.0] && lines == r.1 && procs.children == r.2
    {
      var job := jobs[idx];
      if !job.active {
        return [];
      }
      var allCompleted, exitStatus := PollMembersOf(job.pids, procs);
      if allCompleted {
        lines := [ReportLine(job.command, exitStatus[..|job.pids|])];
        jobs[idx] := job.(command := "", active := false);
      } else {
        lines := [];
      }
    }

    /** The compaction loop: shift the active jobs to the front, in order, and recount. */
    method Compact()
      requires Valid()
      modifies this, jobs
      ensures Valid()
      ensures jobs[..] == Compacted(old(jobs[..]), old(numJobs))
      ensures numJobs == |Survivors(old(Contents()))|
      ensures AllActive()
    {
      ghost var a := jobs[..];
      var newIndex := 0;
      for i := 0 to numJobs
        invariant newIndex == |Survivors(a[..i])| <= i
        invariant jobs[..] == Survivors(a[..i]) + a[newIndex..]
        invariant Valid() && numJobs == old(numJobs)
      {
        newIndex := KeepIfActive(a, i, newIndex);
      }
      numJobs := newIndex;
      assert a[..old(numJobs)] == old(Contents());
    }

    /** One pass of the compaction loop: move the job in slot `i` down to `newIndex` when it is active. */
    method KeepIfActive(ghost a: seq<BackgroundJob>, i: int, newIndex: int) returns (next: int)
      requires Valid() && 0 <= i < numJobs && |a| == jobs.Length
      requires newIndex == |Survivors(a[..i])| <= i
      requires jobs[..] == Survivors(a[..i]) + a[newIndex..]
      modifies jobs
      ensures Valid()
      ensures next == |Survivors(a[..i + 1])| <= i + 1
      ensures jobs[..] == Survivors(a[..i + 1]) + a[next..]
    {
      ghost var kept := Survivors(a[..i]);
      assert a[..i + 1][..i] == a[..i];
      assert jobs[i] == a[i] by {
        assert jobs[i] == jobs[..][i] == a[newIndex..][i - newIndex];
      }
      next := newIndex;
      if jobs[i].active {
        ghost var before := jobs[..];
        if i != newIndex {
          jobs[newIndex] := jobs[i];
        }
        assert jobs[..] == before[newIndex := a[i]];
        PlaceNext(kept, a[i], a[newIndex..]);
        assert a[newIndex..][1..] == a[newIndex + 1..];
        assert Survivors(a[..i + 1]) == kept + [a[i]];
        next := newIndex + 1;
      } else {
        assert Survivors(a[..i + 1]) == kept;
      }
    }

    /**
     * The marking loop of `check_completed_bg_jobs`: poll every live job in
     * queue order, reporting and retiring those whose members are all done.
     */
    method MarkCompleted(procs: ProcessTable) returns (completed: int, lines: seq<string>)
      requires Valid()
      modifies jobs, procs
      ensures Valid()
      ensures var r := PollJobs(old(Contents()), old(procs.children));
        && jobs[..] == r.0 + old(jobs[numJobs..])
        && lines == r.1 && completed == |lines| && procs.children == r.2
    {
      ghost var live := Contents();
      ghost var rest := jobs[numJobs..];
      ghost var t0 := procs.children;
      ghost var marked: seq<BackgroundJob> := [];
      completed := 0;
      lines := [];
      var jobIdx := 0;
      assert jobs[..] == marked + (live[0..] + rest);
      assert live[0..] == live;
      ghost var whole := PollJobs(live, t0);
      assert marked + whole.0 == whole.0 && lines + whole.1 == whole.1;
      while jobIdx < numJobs
        invariant Valid() && numJobs == |live|
        invariant 0 <= jobIdx <= numJobs && |marked| == jobIdx
        invariant jobs[..] == marked + (live[jobIdx..] + rest)
        invariant completed == |lines|
        invariant var r := PollJobs(live[jobIdx..], procs.children);
          PollJobs(live, t0) == (marked + r.0, lines + r.1, r.2)
      {
        ghost var o := PollOne(live[jobIdx], procs.children);
        var more := MarkOne(jobIdx, procs, live, rest, t0, marked, lines);
        marked := marked + [o.0];
        lines := lines + more;
        completed := completed + |more|;
        jobIdx := jobIdx + 1;
      }
      assert live[jobIdx..] == [];
      assert marked + ([] + rest) == marked + rest;
    }

    /**
     * One pass of the marking loop, with the loop's invariant: the slots
     * before `jobIdx` hold the polled jobs `marked`, the rest of the pass
     * is still to come.
     */
    method MarkOne(jobIdx: int, procs: ProcessTable, ghost live: seq<BackgroundJob>, ghost rest: seq<BackgroundJob>,
                   ghost t0: Table, ghost marked: seq<BackgroundJob>, ghost lines: seq<string>)
      returns (more: seq<string>)
      requires Valid() && numJobs == |live| && 0 <= jobIdx < numJobs && |marked| == jobIdx
      requires jobs[..] == marked + (live[jobIdx..] + rest)
      requires var r := PollJobs(live[jobIdx..], procs.children);
        PollJobs(live, t0) == (marked + r.0, lines + r.1, r.2)
      modifies jobs, procs
      ensures Valid()
      ensures var o := PollOne(live[jobIdx], old(procs.children));
        && jobs[..] == (marked + [o.0]) + (live[jobIdx + 1..] + rest)
        && more == o.1 && procs.children == o.2
        && var r := PollJobs(live[jobIdx + 1..], procs.children);
          PollJobs(live, t0) == ((marked + [o.0]) + r.0, (lines + more) + r.1, r.2)
    {
      PollJobsStep(live, t0, jobIdx, marked, lines, procs.children);
      ghost var o := PollOne(live[jobIdx], procs.children);
      assert jobs[jobIdx] == live[jobIdx] by {
        assert jobs[jobIdx] == jobs[..][|marked|];
      }
      more := PollSlot(jobIdx, procs);
      PlaceBefore(marked, o.0, live[jobIdx..], rest);
      assert live[jobIdx..][1..] == live[jobIdx + 1..];
    }

    /**
     * `check_completed_bg_jobs`: report and retire, in queue order, every
     * live job none of whose members is still running; then, if any was
     * reported, compact the queue. Answers how many were reported, and the
     * lines written.
     */
    method CheckCompletedJobs(procs: ProcessTable) returns (completed: int, lines: seq<string>)
      requires Valid()
      modifies this, jobs, procs
      ensures Valid()
      ensures var r := PollJobs(old(Contents()), old(procs.children));
        && lines == r.1 && completed == |lines| && procs.children == r.2
        && (completed > 0 ==>
              && jobs[..] == Compacted(r.0 + old(jobs[numJobs..]), old(numJobs))
              && numJobs == |Survivors(r.0)|
              && AllActive())
        && (completed == 0 ==> jobs[..] == old(jobs[..]) && numJobs == old(numJobs))
      ensures old(AllActive()) ==> AllActive() && numJobs == old(numJobs) - completed
    {
      ghost var live := Contents();
      ghost var t0 := procs.children;
      completed, lines := MarkCompleted(procs);
      ghost var marked := PollJobs(live, t0).0;
      assert jobs[..numJobs] == marked;
      if completed > 0 {
        Compact();
        assert old(AllActive()) ==> numJobs == old(numJobs) - completed by {
          if old(AllActive()) {
            CountWhenAllActive(live, t0);
          }
        }
      } else {
        assert jobs[..] == old(jobs[..]) by {
          MarkingRetiresOnly(live, t0);
        }
      }
    }
  }
}
