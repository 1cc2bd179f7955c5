/**
 * What one run of `check_completed_bg_jobs` computes, as functions of the
 * queue's live jobs and the children not yet reaped: which jobs are
 * retired, which lines are reported, and which children are reaped; then
 * how the queue is compacted.
 */
module Poll {
  import opened Prelude
  import opened Report
  import opened Processes

  /**
   * A queued background job. `pids` holds the first `pid_count` entries
   * of the fixed `pids` array; the empty command stands for `NULL`.
   */
  datatype BackgroundJob = BackgroundJob(pids: seq<Pid>, command: string, active: bool)

  /** A queue slot as `init_bg_queue` leaves it. */
  const Idle: BackgroundJob := BackgroundJob([], "", false)

  /** A job after it was reported: its command freed and set to `NULL`, and marked inactive. */
  function Retired(job: BackgroundJob): BackgroundJob
  {
    job.(command := "", active := false)
  }

  /**
   * Waits on the members of a job in order and stops at the first one still
   * running. Yields whether none was running, the code of each member
   * waited on before stopping, and the children left.
   */
  function PollMembers(pids: seq<Pid>, t: Table): (r: (bool, seq<nat>, Table))
    ensures |r.1| <= |pids|
    ensures r.0 ==> |r.1| == |pids|
    decreases |pids|
  {
    if pids == [] then (true, [], t)
    else
      var (w, t1) := Wait(t, pids[0]);
      if w == Running then (false, [], t1)
      else
        var (done, codes, t2) := PollMembers(pids[1..], t1);
        (done, [CodeOf(w)] + codes, t2)
  }

  /** The member loop from member `i` on waits on member `i` first. */
  lemma PollMembersUnfold(pids: seq<Pid>, i: nat, t: Table)
    requires i < |pids|
    ensures var (w, t1) := Wait(t, pids[i]);
      PollMembers(pids[i..], t) ==
        if w == Running then (false, [], t1)
        else
          var next := PollMembers(pids[i + 1..], t1);
          (next.0, [CodeOf(w)] + next.1, next.2)
  {
    assert pids[i..][0] == pids[i] && pids[i..][1..] == pids[i + 1..];
  }

  /**
   * The member loop's invariant carried over one more member: it either
   * stops the pass here, or adds this member's code to those gathered.
   */
  lemma PollMembersStep(pids: seq<Pid>, t0: Table, i: nat, codes: seq<nat>, t: Table)
    requires i < |pids|
    requires var r := PollMembers(pids[i..], t);
      PollMembers(pids, t0) == (r.0, codes + r.1, r.2)
    ensures var (w, t1) := Wait(t, pids[i]);
      if w == Running then PollMembers(pids, t0) == (false, codes, t1)
      else
        var r := PollMembers(pids[i + 1..], t1);
        PollMembers(pids, t0) == (r.0, (codes + [CodeOf(w)]) + r.1, r.2)
  {
    var (w, t1) := Wait(t, pids[i]);
    PollMembersUnfold(pids, i, t);
    if w == Running {
      assert codes + [] == codes;
    } else {
      var r := PollMembers(pids[i + 1..], t1);
      assert (codes + [CodeOf(w)]) + r.1 == codes + ([CodeOf(w)] + r.1);
    }
  }

  /** The effect of polling one queue slot: the slot afterwards, the lines reported, the children left. */
  function PollOne(job: BackgroundJob, t: Table): (BackgroundJob, seq<string>, Table)
  {
    if !job.active then (job, [], t)
    else
      var (done, codes, t1) := PollMembers(job.pids, t);
      if done then (Retired(job), [ReportLine(job.command, codes)], t1)
      else (job, [], t1)
  }

  /** The marking pass over the live jobs, in queue order. */
  function PollJobs(jobs: seq<BackgroundJob>, t: Table): (r: (seq<BackgroundJob>, seq<string>, Table))
    ensures |r.0| == |jobs|
    decreases |jobs|
  {
    if jobs == [] then ([], [], t)
    else
      var (job, lines, t1) := PollOne(jobs[0], t);
      var (rest, moreLines, t2) := PollJobs(jobs[1..], t1);
      ([job] + rest, lines + moreLines, t2)
  }

  /** The marking pass from slot `i` on is the poll of slot `i` followed by the pass from `i + 1`. */
  lemma PollJobsUnfold(jobs: seq<BackgroundJob>, i: nat, t: Table)
    requires i < |jobs|
    ensures var o := PollOne(jobs[i], t);
            var next := PollJobs(jobs[i + 1..], o.2);
      PollJobs(jobs[i..], t) == ([o.0] + next.0, o.1 + next.1, next.2)
  {
    assert jobs[i..][0] == jobs[i] && jobs[i..][1..] == jobs[i + 1..];
  }

  /**
   * The marking loop's invariant carried over one more job: what has been
   * done so far, then this job's poll, then the rest, is the whole pass.
   */
  lemma PollJobsStep(jobs: seq<BackgroundJob>, t0: Table, i: nat, done: seq<BackgroundJob>, lines: seq<string>, t: Table)
    requires i < |jobs|
    requires var r := PollJobs(jobs[i..], t);
      PollJobs(jobs, t0) == (done + r.0, lines + r.1, r.2)
    ensures var o := PollOne(jobs[i], t);
            var r := PollJobs(jobs[i + 1..], o.2);
      PollJobs(jobs, t0) == ((done + [o.0]) + r.0, (lines + o.1) + r.1, r.2)
  {
    var o := PollOne(jobs[i], t);
    var r := PollJobs(jobs[i + 1..], o.2);
    PollJobsUnfold(jobs, i, t);
    assert (done + [o.0]) + r.0 == done + ([o.0] + r.0);
    assert (lines + o.1) + r.1 == lines + (o.1 + r.1);
  }

  /** The active jobs of `s`, in their order. */
  function Survivors(s: seq<BackgroundJob>): (r: seq<BackgroundJob>)
    ensures |r| <= |s|
    ensures forall k :: 0 <= k < |r| ==> r[k].active
  {
    if s == [] then []
    else Survivors(s[..|s| - 1]) + (if s[|s| - 1].active then [s[|s| - 1]] else [])
  }

  /**
   * The slots after the compaction loop over the first `n`: the active
   * jobs moved to the front in order; every later slot keeps what it held.
   */
  function Compacted(a: seq<BackgroundJob>, n: nat): (r: seq<BackgroundJob>)
    requires n <= |a|
    ensures |r| == |a|
  {
    var kept := Survivors(a[..n]);
    kept + a[|kept|..]
  }

  /*
   * A reference description of the poll for jobs whose members are all
   * different processes: each job is judged on the table of children the
   * poll starts from.
   */

  /** No member of the job is still running. */
  predicate AllTerminated(t: Table, pids: seq<Pid>)
  {
    forall k :: 0 <= k < |pids| ==> !IsLive(t, pids[k])
  }

  /** The code reported for a member: its exit code if it is waiting to be reaped after exiting, else 0. */
  function CodeIn(t: Table, pid: Pid): nat
  {
    if pid in t && t[pid].Zombie? && t[pid].status.ExitedWith? then t[pid].status.code else 0
  }

  function CodesIn(t: Table, pids: seq<Pid>): (r: seq<nat>)
    ensures |r| == |pids|
    ensures forall k :: 0 <= k < |pids| ==> r[k] == CodeIn(t, pids[k])
  {
    seq(|pids|, k requires 0 <= k < |pids| => CodeIn(t, pids[k]))
  }

  predicate Completes(job: BackgroundJob, t: Table)
  {
    job.active && AllTerminated(t, job.pids)
  }

  function ExpectedSlots(jobs: seq<BackgroundJob>, t: Table): (r: seq<BackgroundJob>)
    ensures |r| == |jobs|
  {
    seq(|jobs|, k requires 0 <= k < |jobs| => if Completes(jobs[k], t) then Retired(jobs[k]) else jobs[k])
  }

  function ExpectedLines(jobs: seq<BackgroundJob>, t: Table): seq<string>
  {
    if jobs == [] then []
    else
      (if Completes(jobs[0], t) then [ReportLine(jobs[0].command, CodesIn(t, jobs[0].pids))] else [])
      + ExpectedLines(jobs[1..], t)
  }

  /** All member pids of all jobs, in queue order. */
  function AllPids(jobs: seq<BackgroundJob>): seq<Pid>
  {
    if jobs == [] then [] else jobs[0].pids + AllPids(jobs[1..])
  }

  predicate Distinct(s: seq<Pid>)
  {
    forall i, j :: 0 <= i < j < |s| ==> s[i] != s[j]
  }

  /*
   * Lemmas about one job's member loop.
   */

  /** Waiting never turns a child back into a running one, and leaves every other child as it was. */
  lemma WaitFrame(t: Table, pid: Pid, q: Pid)
    ensures IsLive(Wait(t, pid).1, q) == IsLive(t, q)
    ensures q != pid ==> CodeIn(Wait(t, pid).1, q) == CodeIn(t, q)
  {
  }

  /**
   * A job counts as completed exactly when none of its members is still
   * running, whatever has been reaped before and even when a pid repeats.
   */
  lemma {:induction false} CompletedIffNoneRunning(pids: seq<Pid>, t: Table)
    ensures PollMembers(pids, t).0 <==> AllTerminated(t, pids)
    decreases |pids|
  {
    if pids != [] {
      var (w, t1) := Wait(t, pids[0]);
      if w != Running {
        CompletedIffNoneRunning(pids[1..], t1);
        forall q {
          WaitFrame(t, pids[0], q);
        }
        assert AllTerminated(t1, pids[1..]) <==> AllTerminated(t, pids[1..]) by {
          assert forall k :: 0 <= k < |pids[1..]| ==> pids[1..][k] == pids[k + 1];
        }
      }
    }
  }

  /**
   * With distinct members: the members waited on are exactly those before
   * the first one still running; each gets its own exit code (0 when it did
   * not exit or was reaped earlier); exactly those are reaped.
   */
  lemma {:induction false} MemberLoopEffect(pids: seq<Pid>, t: Table)
    requires Distinct(pids)
    ensures var r := PollMembers(pids, t);
            var m := |r.1|;
      && (forall k :: 0 <= k < m ==> !IsLive(t, pids[k]) && r.1[k] == CodeIn(t, pids[k]))
      && (m < |pids| ==> IsLive(t, pids[m]) && !r.0)
      && (m == |pids| ==> r.0)
      && r.2 == t - (set x | x in pids[..m])
    decreases |pids|
  {
    var r := PollMembers(pids, t);
    if pids == [] {
      assert (set x | x in pids[..0]) == {};
      assert t - {} == t;
    } else {
      var p := pids[0];
      var (w, t1) := Wait(t, p);
      if w == Running {
        assert (set x | x in pids[..0]) == {};
        assert t - {} == t;
      } else {
        var rest := pids[1..];
        assert pids == [p] + rest;
        assert Distinct(rest) && p !in rest by {
          assert forall k :: 0 <= k < |rest| ==> rest[k] == pids[k + 1];
        }
        MemberLoopEffect(rest, t1);
        var r1 := PollMembers(rest, t1);
        var m1 := |r1.1|;
        assert r == (r1.0, [CodeOf(w)] + r1.1, r1.2);
        assert forall k :: 0 <= k < m1 + 1 ==> !IsLive(t, pids[k]) && r.1[k] == CodeIn(t, pids[k]) by {
          MemberCodesCons(p, rest, t, r1.1);
        }
        assert m1 < |rest| ==> IsLive(t, pids[m1 + 1]) by {
          if m1 < |rest| {
            WaitFrame(t, p, rest[m1]);
          }
        }
        var reaped := pids[..m1 + 1];
        assert r.2 == t - (set x | x in reaped) by {
          assert reaped == [p] + rest[..m1];
          ReapedCons(p, rest[..m1], t);
        }
      }
    }
  }

  /** The first member's code, then the codes of members of `rest` read off the table it left. */
  lemma MemberCodesCons(p: Pid, rest: seq<Pid>, t: Table, codes: seq<nat>)
    requires p !in rest && !IsLive(t, p) && |codes| <= |rest|
    requires forall k :: 0 <= k < |codes| ==>
      !IsLive(Wait(t, p).1, rest[k]) && codes[k] == CodeIn(Wait(t, p).1, rest[k])
    ensures var pids := [p] + rest;
            var all := [CodeOf(Wait(t, p).0)] + codes;
      forall k :: 0 <= k < |all| ==> !IsLive(t, pids[k]) && all[k] == CodeIn(t, pids[k])
  {
    var pids := [p] + rest;
    var all := [CodeOf(Wait(t, p).0)] + codes;
    forall k | 0 <= k < |all|
      ensures !IsLive(t, pids[k]) && all[k] == CodeIn(t, pids[k])
    {
      if k > 0 {
        assert all[k] == codes[k - 1] && pids[k] == rest[k - 1];
        WaitFrame(t, p, pids[k]);
      }
    }
  }

  /** Reaping `p`, then the members of `front`, reaps the members of `[p] + front`. */
  lemma ReapedCons(p: Pid, front: seq<Pid>, t: Table)
    ensures (t - {p}) - (set x | x in front) == t - (set x | x in [p] + front)
  {
    var s1 := set x | x in front;
    assert (set x | x in [p] + front) == {p} + s1;
    assert (t - {p}) - s1 == t - ({p} + s1);
  }

  /** With distinct members, a completed job reports one code per member: its exit code, or 0. */
  lemma CompletedCodes(pids: seq<Pid>, t: Table)
    requires Distinct(pids)
    requires PollMembers(pids, t).0
    ensures PollMembers(pids, t).1 == CodesIn(t, pids)
  {
    MemberLoopEffect(pids, t);
  }

  /*
   * Lemmas about the marking pass.
   */

  lemma {:induction false} SurvivorsAppend(a: seq<BackgroundJob>, b: seq<BackgroundJob>)
    ensures Survivors(a + b) == Survivors(a) + Survivors(b)
    decreases |b|
  {
    if b == [] {
      assert a + b == a;
    } else {
      var b' := b[..|b| - 1];
      assert (a + b)[..|a + b| - 1] == a + b';
      SurvivorsAppend(a, b');
    }
  }

  lemma SurvivorsCons(x: BackgroundJob, s: seq<BackgroundJob>)
    ensures Survivors([x] + s) == (if x.active then [x] else []) + Survivors(s)
  {
    SurvivorsAppend([x], s);
    assert [x][..0] == [];
  }

  /** A sequence of active jobs survives whole. */
  lemma {:induction false} SurvivorsOfActive(s: seq<BackgroundJob>)
    requires forall k :: 0 <= k < |s| ==> s[k].active
    ensures Survivors(s) == s
  {
    if s != [] {
      SurvivorsOfActive(s[..|s| - 1]);
    }
  }

  /**
   * The marking pass only retires active jobs and leaves every other slot
   * alone; when it reports nothing it changes nothing.
   */
  lemma {:induction false} MarkingRetiresOnly(jobs: seq<BackgroundJob>, t: Table)
    ensures var r := PollJobs(jobs, t);
      && (forall k :: 0 <= k < |jobs| ==>
            r.0[k] == jobs[k] || (jobs[k].active && r.0[k] == Retired(jobs[k])))
      && (|r.1| == 0 ==> r.0 == jobs)
    decreases |jobs|
  {
    if jobs != [] {
      var (job, lines, t1) := PollOne(jobs[0], t);
      var rest := jobs[1..];
      MarkingRetiresOnly(rest, t1);
      var r := PollJobs(jobs, t);
      var r1 := PollJobs(rest, t1);
      assert r.0 == [job] + r1.0 && r.1 == lines + r1.1;
      forall k | 0 <= k < |jobs|
        ensures r.0[k] == jobs[k] || (jobs[k].active && r.0[k] == Retired(jobs[k]))
      {
        if k > 0 {
          assert r.0[k] == r1.0[k - 1] && jobs[k] == rest[k - 1];
        }
      }
      if |r.1| == 0 {
        assert jobs == [jobs[0]] + rest;
      }
    }
  }

  /** Each job reported is one fewer active job: the jobs still active plus the lines reported are the jobs that were active. */
  lemma {:induction false} MarkingCount(jobs: seq<BackgroundJob>, t: Table)
    ensures |Survivors(PollJobs(jobs, t).0)| + |PollJobs(jobs, t).1| == |Survivors(jobs)|
    decreases |jobs|
  {
    if jobs != [] {
      var (job, lines, t1) := PollOne(jobs[0], t);
      var rest := jobs[1..];
      MarkingCount(rest, t1);
      var r1 := PollJobs(rest, t1);
      assert PollJobs(jobs, t) == ([job] + r1.0, lines + r1.1, r1.2);
      SurvivorsCons(jobs[0], rest);
      SurvivorsCons(job, r1.0);
      assert jobs == [jobs[0]] + rest;
      assert |lines| == (if jobs[0].active && !job.active then 1 else 0);
    }
  }

  /** When every job was active, the survivors plus the reported jobs are all the jobs. */
  lemma CountWhenAllActive(jobs: seq<BackgroundJob>, t: Table)
    requires forall k :: 0 <= k < |jobs| ==> jobs[k].active
    ensures |Survivors(PollJobs(jobs, t).0)| == |jobs| - |PollJobs(jobs, t).1|
  {
    MarkingCount(jobs, t);
    SurvivorsOfActive(jobs);
  }

  lemma DistinctSplit(a: seq<Pid>, b: seq<Pid>)
    requires Distinct(a + b)
    ensures Distinct(a) && Distinct(b)
    ensures forall x :: x in a ==> x !in b
  {
    var s := a + b;
    forall i, j | 0 <= i < j < |b| ensures b[i] != b[j] {
      assert b[i] == s[|a| + i] && b[j] == s[|a| + j];
    }
    forall i, j | 0 <= i < |a| && 0 <= j < |b| ensures a[i] != b[j] {
      assert a[i] == s[i] && b[j] == s[|a| + j];
    }
    forall i, j | 0 <= i < j < |a| ensures a[i] != a[j] {
      assert a[i] == s[i] && a[j] == s[j];
    }
  }

  /** Children other than the ones in `gone` look the same after `gone` is reaped. */
  lemma {:induction false} ExpectedFrame(jobs: seq<BackgroundJob>, t: Table, gone: set<Pid>)
    requires forall x :: x in AllPids(jobs) ==> x !in gone
    ensures ExpectedSlots(jobs, t - gone) == ExpectedSlots(jobs, t)
    ensures ExpectedLines(jobs, t - gone) == ExpectedLines(jobs, t)
    decreases |jobs|
  {
    if jobs != [] {
      var t' := t - gone;
      forall k | 0 <= k < |jobs|
        ensures Completes(jobs[k], t') == Completes(jobs[k], t)
        ensures CodesIn(t', jobs[k].pids) == CodesIn(t, jobs[k].pids)
      {
        PidsOfJob(jobs, k);
      }
      ExpectedFrame(jobs[1..], t, gone) by {
        forall x | x in AllPids(jobs[1..]) ensures x !in gone {
          assert AllPids(jobs) == jobs[0].pids + AllPids(jobs[1..]);
        }
      }
    }
  }

  /** Each job's pids occur in `AllPids`. */
  lemma {:induction false} PidsOfJob(jobs: seq<BackgroundJob>, k: nat)
    requires k < |jobs|
    ensures forall x :: x in jobs[k].pids ==> x in AllPids(jobs)
    decreases k
  {
    if k > 0 {
      PidsOfJob(jobs[1..], k - 1);
    }
  }

  /**
   * With no pid shared between or within jobs, each job is retired and
   * reported exactly when it is active and none of its members is running in
   * the table the poll starts from, with its members' exit codes, and the
   * reports come out in queue order.
   */
  lemma {:induction false} PollMatchesReference(jobs: seq<BackgroundJob>, t: Table)
    requires Distinct(AllPids(jobs))
    ensures PollJobs(jobs, t).0 == ExpectedSlots(jobs, t)
    ensures PollJobs(jobs, t).1 == ExpectedLines(jobs, t)
    decreases |jobs|
  {
    if jobs != [] {
      var job := jobs[0];
      var rest := jobs[1..];
      DistinctSplit(job.pids, AllPids(rest));
      var gone := PollOneReference(job, t);
      var (job', lines, t1) := PollOne(job, t);
      PollMatchesReference(rest, t1);
      ExpectedFrame(rest, t, gone);
      assert PollJobs(jobs, t) == ([job'] + PollJobs(rest, t1).0, lines + PollJobs(rest, t1).1, PollJobs(rest, t1).2);
      var e := ExpectedSlots(jobs, t);
      var e1 := ExpectedSlots(rest, t);
      assert e == [job'] + e1 by {
        forall k | 1 <= k < |jobs| ensures e[k] == e1[k - 1] {
          assert jobs[k] == rest[k - 1];
        }
      }
    }
  }

  /**
   * One active job with distinct members is retired and reported exactly
   * when none of its members is running, with their exit codes; only its
   * own members are reaped.
   */
  lemma PollOneReference(job: BackgroundJob, t: Table) returns (gone: set<Pid>)
    requires Distinct(job.pids)
    ensures forall x :: x in gone ==> x in job.pids
    ensures PollOne(job, t) ==
      (if Completes(job, t) then Retired(job) else job,
       if Completes(job, t) then [ReportLine(job.command, CodesIn(t, job.pids))] else [],
       t - gone)
  {
    if job.active {
      MemberLoopEffect(job.pids, t);
      CompletedIffNoneRunning(job.pids, t);
      var m := |PollMembers(job.pids, t).1|;
      gone := set x | x in job.pids[..m];
      if Completes(job, t) {
        CompletedCodes(job.pids, t);
      }
    } else {
      gone := {};
      assert t - gone == t;
    }
  }

  /**
   * A member reaped in an earlier poll no longer reports its exit code: the
   * first poll reaps the exited member 100 (code 5) but stops at the running
   * member 101; once 101 has exited with 7, the second poll reports `[0][7]`.
   */
  lemma EarlierReapedReportsZero(command: string)
    ensures var job := BackgroundJob([100, 101], command, true);
            var first := PollJobs([job], map[100 := Zombie(ExitedWith(5)), 101 := Live]);
            var second := PollJobs([job], first.2[101 := Zombie(ExitedWith(7))]);
      && first == ([job], [], map[101 := Live])
      && second == ([Retired(job)], [ReportLine(command, [0, 7])], map[])
  {
    var job := BackgroundJob([100, 101], command, true);
    var pids: seq<Pid> := [100, 101];
    assert pids[0] == 100 && pids[1..] == [101] && [101][1..] == [];
    assert [job][1..] == [];
    var t0 := map[100 := Zombie(ExitedWith(5)), 101 := Live];
    var t1 := map[101 := Live];
    assert Wait(t0, 100) == (Exited(5), t1) by {
      assert t0 - {100} == t1;
    }
    assert Wait(t1, 101) == (Running, t1);
    assert PollMembers([101], t1) == (false, [], t1);
    assert [CodeOf(Exited(5))] + [] == [5];
    assert PollMembers(pids, t0) == (false, [5], t1);
    assert job.pids == pids;
    assert PollOne(job, t0) == (job, [], t1);
    assert [job] + [] == [job];
    assert PollJobs([], t1) == ([], [], t1);
    var none: seq<string> := [];
    assert none + none == none;
    assert PollJobs([job], t0) == ([job], [], t1);
    var t2 := t1[101 := Zombie(ExitedWith(7))];
    assert Wait(t2, 100) == (Error, t2);
    assert Wait(t2, 101) == (Exited(7), map[]) by {
      assert t2 - {101} == map[];
    }
    assert PollMembers([], map[]) == (true, [], map[]);
    assert [CodeOf(Exited(7))] + [] == [7];
    assert PollMembers([101], t2) == (true, [7], map[]);
    assert [CodeOf(Error)] + [7] == [0, 7];
    assert PollMembers(pids, t2) == (true, [0, 7], map[]);
    assert PollOne(job, t2) == (Retired(job), [ReportLine(command, [0, 7])], map[]);
    assert [Retired(job)] + [] == [Retired(job)];
    assert PollJobs([], map[]) == ([], [], map[]);
    assert [ReportLine(command, [0, 7])] + [] == [ReportLine(command, [0, 7])];
    assert PollJobs([job], t2) == ([Retired(job)], [ReportLine(command, [0, 7])], map[]);
  }

  /*
   * Lemmas about the compaction.
   */

  /**
   * Compaction keeps the active jobs in order at the front, and the number
   * kept is the new job count.
   */
  lemma CompactedFront(a: seq<BackgroundJob>, n: nat)
    requires n <= |a|
    ensures var kept := Survivors(a[..n]);
      && Compacted(a, n)[..|kept|] == kept
      && |kept| <= n
      && forall k :: 0 <= k < |kept| ==> Compacted(a, n)[k].active
  {
  }

  /** A queue whose live jobs are all active is left as it is. */
  lemma CompactedNoop(a: seq<BackgroundJob>, n: nat)
    requires n <= |a|
    requires forall k :: 0 <= k < n ==> a[k].active
    ensures Compacted(a, n) == a
  {
    var live := a[..n];
    assert forall k :: 0 <= k < |live| ==> live[k] == a[k];
    SurvivorsOfActive(live);
    assert Compacted(a, n) == live + a[n..];
    assert live + a[n..] == a;
  }
}
