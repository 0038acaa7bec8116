/** What the end of a restore tells of its past (tsync/restore.go restoreToDir): why an entry was skipped or
    failed, when the restore as a whole succeeds, and that noOverwrite means what it says. */
module RestorePoolHistory {
  import opened RestorePool
  import opened RestorePoolProofs

  /** In this step extractOne gives up on task t with err: an error from outside, decoded content that differs
      from the record in a length or the checksum, or a file key without a record. */
  ghost predicate Breaks(st: State, step: Step, t: nat, err: Err)
  {
    OfWorker(step) && At(st, step.w) &&
    var x := st.workers[step.w];
    match step
    case Break(_, e) => Working(x) && x.task == t && e == err
    case Look(_, _) => x == Looking(t) && t < |st.job.tasks| && st.job.tasks[t].key !in st.job.files && err == Other
    case Verify(_) => x.Decoded? && x.task == t && Differs(st.job, t, x.compressed, x.bytes) && err == Skippable
    case _ => false
  }

  /** There is a record for task t, and it describes something else. */
  predicate Differs(job: Job, t: nat, compressed: nat, bytes: string)
  {
    && t < |job.tasks| && job.tasks[t].key in job.files
    && var rec := job.files[job.tasks[t].key];
       compressed != rec.compressedSize || |bytes| != rec.size || job.crc(bytes) != rec.crc32
  }

  ghost predicate BreaksBefore(run: seq<State>, steps: seq<Step>, i: nat, t: nat, err: Err)
    requires i <= |steps| <= |run|
  {
    exists k :: 0 <= k < i && Breaks(run[k], steps[k], t, err)
  }

  /** What broke in one step, and in the first i. */
  ghost function Own(st: State, step: Step): set<(nat, Err)>
  {
    if Enabled(st, step) && OfWorker(step) && Target(st, step).Failing?
    then {(Target(st, step).task, Target(st, step).err)} else {}
  }

  ghost function Broken(run: seq<State>, steps: seq<Step>, i: nat): set<(nat, Err)>
    requires i <= |steps| <= |run|
  {
    if i == 0 then {} else Broken(run, steps, i - 1) + Own(run[i - 1], steps[i - 1])
  }

  lemma OwnIff(st: State, step: Step, t: nat, err: Err)
    requires Enabled(st, step)
    ensures (t, err) in Own(st, step) <==> Breaks(st, step, t, err)
  {
  }

  lemma {:induction false} BrokenFrom(run: seq<State>, steps: seq<Step>, i: nat, b: (nat, Err)) returns (k: nat)
    requires i <= |steps| <= |run| && b in Broken(run, steps, i)
    ensures k < i && b in Own(run[k], steps[k])
  {
    if b in Broken(run, steps, i - 1) {
      k := BrokenFrom(run, steps, i - 1, b);
    } else {
      k := i - 1;
    }
  }

  lemma {:induction false} BrokenHas(run: seq<State>, steps: seq<Step>, i: nat, k: nat)
    requires k < i <= |steps| <= |run|
    ensures Own(run[k], steps[k]) <= Broken(run, steps, i)
  {
    if k < i - 1 {
      BrokenHas(run, steps, i - 1, k);
    }
  }

  lemma BrokenIff(run: seq<State>, steps: seq<Step>, i: nat, t: nat, err: Err)
    requires IsRun(run, steps) && i <= |steps|
    ensures (t, err) in Broken(run, steps, i) <==> BreaksBefore(run, steps, i, t, err)
  {
    if (t, err) in Broken(run, steps, i) {
      var k := BrokenFrom(run, steps, i, (t, err));
      OwnIff(run[k], steps[k], t, err);
    }
    if BreaksBefore(run, steps, i, t, err) {
      var k :| 0 <= k < i && Breaks(run[k], steps[k], t, err);
      OwnIff(run[k], steps[k], t, err);
      BrokenHas(run, steps, i, k);
    }
  }

  /** What a step does to the workers, the results and the disk. */
  ghost predicate Follows(st: State, step: Step, st': State)
  {
    && Enabled(st, step) && st'.job == st.job
    && if OfWorker(step)
       then st'.workers == st.workers[step.w := Target(st, step)] && st'.results == Posted(st, step)
            && st'.disk == DiskAfter(st, step)
       else st'.workers == st.workers && st'.results == st.results && st'.disk == st.disk
  }

  lemma ApplyFollows(st: State, step: Step)
    requires Enabled(st, step)
    ensures Follows(st, step, Apply(st, step))
  {
  }

  // ---- A result has its reason ----

  predicate Skips(job: Job, err: Err) { job.skipErrors && err.Skippable? }

  predicate FromResult(job: Job, r: Result, broken: set<(nat, Err)>)
  {
    match r
    case Done(t, how) => how.Skipped? ==> job.skipErrors && (t, Skippable) in broken
    case Failed(t, err, cancelled) =>
      && (cancelled ==> err.Canceled?)
      && (cancelled || ((t, err) in broken && !Skips(job, err)))
  }

  predicate FromWorker(job: Job, x: Worker, broken: set<(nat, Err)>)
  {
    match x
    case Failing(t, err) => (t, err) in broken
    case Flagged(t, err, cancelled) => (t, err) in broken && !Skips(job, err) && (cancelled ==> err.Canceled?)
    case Ready(r) => FromResult(job, r, broken)
    case _ => true
  }

  ghost predicate From(job: Job, workers: seq<Worker>, results: seq<Result>, broken: set<(nat, Err)>)
  {
    && (forall w | 0 <= w < |workers| :: FromWorker(job, workers[w], broken))
    && (forall i | 0 <= i < |results| :: FromResult(job, results[i], broken))
  }

  lemma FromMoved(job: Job, workers: seq<Worker>, results: seq<Result>, broken: set<(nat, Err)>,
                  w: nat, x: Worker, after: seq<Result>, more: set<(nat, Err)>)
    requires From(job, workers, results, broken) && w < |workers| && broken <= more && FromWorker(job, x, more)
    requires after == results || (workers[w].Ready? && after == results + [workers[w].result])
    ensures From(job, workers[w := x], after, more)
  {
    assert FromWorker(job, workers[w], broken);
  }

  lemma TargetFrom(st: State, step: Step, broken: set<(nat, Err)>)
    requires Enabled(st, step) && OfWorker(step) && FromWorker(st.job, st.workers[step.w], broken)
    ensures FromWorker(st.job, Target(st, step), broken + Own(st, step))
  {
  }

  lemma WorkerFrom(st: State, step: Step, broken: set<(nat, Err)>)
    requires Enabled(st, step) && OfWorker(step) && From(st.job, st.workers, st.results, broken)
    ensures From(st.job, st.workers[step.w := Target(st, step)], Posted(st, step), broken + Own(st, step))
  {
    TargetFrom(st, step, broken);
    var more := broken + Own(st, step);
    FromMoved(st.job, st.workers, st.results, broken, step.w, Target(st, step), Posted(st, step), more);
  }

  lemma StepFrom(st: State, step: Step, broken: set<(nat, Err)>, st': State)
    requires Follows(st, step, st') && From(st.job, st.workers, st.results, broken)
    ensures From(st'.job, st'.workers, st'.results, broken + Own(st, step))
  {
    if OfWorker(step) {
      WorkerFrom(st, step, broken);
    }
  }

  // ---- What broke has its result ----

  predicate Settled(job: Job, r: Result, t: nat, err: Err)
  {
    if Skips(job, err) then r == Done(t, Skipped) else r.Failed? && r.task == t && r.err == err
  }

  predicate Settling(job: Job, x: Worker, t: nat, err: Err)
  {
    || x == Failing(t, err)
    || (x.Flagged? && x.task == t && x.err == err && !Skips(job, err))
    || (x.Ready? && Settled(job, x.result, t, err))
  }

  ghost predicate OnTheWay(job: Job, workers: seq<Worker>, results: seq<Result>, t: nat, err: Err)
  {
    || (exists w :: 0 <= w < |workers| && Settling(job, workers[w], t, err))
    || (exists i :: 0 <= i < |results| && Settled(job, results[i], t, err))
  }

  lemma WayMoved(job: Job, workers: seq<Worker>, results: seq<Result>, w: nat, x: Worker, after: seq<Result>,
                 t: nat, err: Err)
    requires OnTheWay(job, workers, results, t, err) && w < |workers|
    requires after == results || (workers[w].Ready? && after == results + [workers[w].result])
    requires Settling(job, workers[w], t, err) && after == results ==> Settling(job, x, t, err)
    ensures OnTheWay(job, workers[w := x], after, t, err)
  {
    if v :| 0 <= v < |workers| && Settling(job, workers[v], t, err) {
      if v != w || after == results {
        assert workers[w := x][v] == if v == w then x else workers[v];
      } else {
        assert after[|results|] == workers[w].result;
      }
    } else {
      var i :| 0 <= i < |results| && Settled(job, results[i], t, err);
      assert after[i] == results[i];
    }
  }

  lemma TargetSettling(st: State, step: Step, t: nat, err: Err)
    requires Enabled(st, step) && OfWorker(step) && Settling(st.job, st.workers[step.w], t, err)
    ensures step.Post? || Settling(st.job, Target(st, step), t, err)
  {
  }

  lemma StepWay(st: State, step: Step, t: nat, err: Err, st': State)
    requires Follows(st, step, st')
    requires OnTheWay(st.job, st.workers, st.results, t, err) || (t, err) in Own(st, step)
    ensures OnTheWay(st'.job, st'.workers, st'.results, t, err)
  {
    if OfWorker(step) {
      if (t, err) in Own(st, step) {
        assert st'.workers[step.w] == Failing(t, err);
      } else {
        if Settling(st.job, st.workers[step.w], t, err) {
          TargetSettling(st, step, t, err);
        }
        WayMoved(st.job, st.workers, st.results, step.w, Target(st, step), Posted(st, step), t, err);
      }
    }
  }

  /** The reasons known so far are those of the state, and each is settled or being settled. */
  ghost predicate Explained(st: State, broken: set<(nat, Err)>)
  {
    && From(st.job, st.workers, st.results, broken)
    && forall t, err | (t, err) in broken :: OnTheWay(st.job, st.workers, st.results, t, err)
  }

  lemma StepExplained(st: State, step: Step, broken: set<(nat, Err)>, st': State)
    requires Follows(st, step, st') && Explained(st, broken)
    ensures Explained(st', broken + Own(st, step))
  {
    StepFrom(st, step, broken, st');
    forall t, err | (t, err) in broken + Own(st, step)
      ensures OnTheWay(st'.job, st'.workers, st'.results, t, err)
    {
      StepWay(st, step, t, err, st');
    }
  }

  lemma {:induction false} RunExplained(run: seq<State>, steps: seq<Step>, i: nat)
    requires IsRun(run, steps) && i < |run| && Explained(run[0], {})
    ensures Explained(run[i], Broken(run, steps, i))
  {
    if i > 0 {
      RunExplained(run, steps, i - 1);
      ApplyFollows(run[i - 1], steps[i - 1]);
      StepExplained(run[i - 1], steps[i - 1], Broken(run, steps, i - 1), run[i]);
    }
  }

  lemma {:induction false} RunParent(run: seq<State>, steps: seq<Step>, i: nat)
    requires IsRun(run, steps) && i < |run| && !run[0].parentDone
    ensures run[i].parentDone <==> ParentCancel in steps[..i]
  {
    if i > 0 {
      RunParent(run, steps, i - 1);
      assert steps[..i] == steps[..i - 1] + [steps[i - 1]];
      ParentStep(run[i - 1], steps[i - 1]);
    }
  }

  lemma ParentStep(st: State, step: Step)
    requires Enabled(st, step)
    ensures Apply(st, step).parentDone == (st.parentDone || step.ParentCancel?)
  {
  }

  lemma RunEnd(job: Job, n: nat, run: seq<State>, steps: seq<Step>)
    requires IsPoolRun(job, n, run, steps)
    ensures Inv(run[|steps|]) && run[|steps|].job == job && |run[|steps|].workers| == n
    ensures Explained(run[|steps|], Broken(run, steps, |steps|))
    ensures run[|steps|].parentDone <==> ParentCancel in steps
  {
    ReachedFirst(job, n);
    RunInv(run, steps, |steps|);
    RunExplained(run, steps, |steps|);
    RunParent(run, steps, |steps|);
    assert steps[..|steps|] == steps;
  }

  lemma EndSettles(st: State, broken: set<(nat, Err)>, t: nat, i: nat)
    requires Inv(st) && Final(st) && Explained(st, broken) && i < |st.results| && st.results[i].task == t
    requires forall j | 0 <= j < |st.results| && st.results[j].task == t :: j == i
    ensures forall err | (t, err) in broken :: Settled(st.job, st.results[i], t, err)
    ensures FromResult(st.job, st.results[i], broken)
  {
    forall err | (t, err) in broken ensures Settled(st.job, st.results[i], t, err) {
      assert OnTheWay(st.job, st.workers, st.results, t, err);
      var j :| 0 <= j < |st.results| && Settled(st.job, st.results[j], t, err);
      assert st.results[j].task == t;
    }
  }

  /** The result of a task and what happened to it: whatever extractOne gave up with is skipped if it may be,
      and else reported as it is; nothing is skipped that did not break with an error that may be skipped; and
      nothing fails but by its own error or as an echo of a cancellation. */
  lemma ResultExplained(job: Job, n: nat, run: seq<State>, steps: seq<Step>, t: nat) returns (i: nat)
    requires IsPoolRun(job, n, run, steps) && Final(run[|steps|]) && t < |job.tasks|
    ensures var results := run[|steps|].results;
            && i < |results| && results[i].task == t
            && (forall j | 0 <= j < |results| && results[j].task == t :: j == i)
            && (forall err | BreaksBefore(run, steps, |steps|, t, err) ::
                  if job.skipErrors && err.Skippable? then results[i] == Done(t, Skipped)
                  else results[i].Failed? && results[i].err == err)
            && (results[i] == Done(t, Skipped) ==> job.skipErrors && BreaksBefore(run, steps, |steps|, t, Skippable))
            && (results[i].Failed? ==>
                  || BreaksBefore(run, steps, |steps|, t, results[i].err)
                  || results[i] == Failed(t, Canceled, true))
  {
    var st, broken := run[|steps|], Broken(run, steps, |steps|);
    RunEnd(job, n, run, steps);
    i := EveryTaskAnswered(st, t);
    EndSettles(st, broken, t, i);
    forall err ensures (t, err) in broken <==> BreaksBefore(run, steps, |steps|, t, err) {
      BrokenIff(run, steps, |steps|, t, err);
    }
  }

  lemma SkippedOnly(st: State, broken: set<(nat, Err)>, t: nat, err: Err)
    requires Final(st) && Explained(st, broken) && (t, err) in broken
    requires forall i | 0 <= i < |st.results| :: st.results[i].Done?
    ensures Skips(st.job, err)
  {
    assert OnTheWay(st.job, st.workers, st.results, t, err);
    var j :| 0 <= j < |st.results| && Settled(st.job, st.results[j], t, err);
  }

  lemma EndSucceeds(st: State, broken: set<(nat, Err)>)
    requires Inv(st) && Final(st) && st.workers != [] && Explained(st, broken)
    ensures Returned(st).AllDone? <==> !st.parentDone && forall t, err | (t, err) in broken :: Skips(st.job, err)
  {
    AllDoneIff(st);
    if Returned(st).AllDone? {
      forall t, err | (t, err) in broken ensures Skips(st.job, err) {
        SkippedOnly(st, broken, t, err);
      }
    } else if !st.parentDone {
      FailureIsReported(st);
      var j :| 0 <= j < |st.results| && RootCause(st.results[j]);
      assert FromResult(st.job, st.results[j], broken);
    }
  }

  /** A finished restore succeeds exactly when the caller did not cancel and every error an extraction gave up
      with may be skipped: without any such error, always. */
  lemma SucceedsIff(job: Job, n: nat, run: seq<State>, steps: seq<Step>)
    requires IsPoolRun(job, n, run, steps) && Final(run[|steps|])
    ensures Returned(run[|steps|]).AllDone? <==>
            ParentCancel !in steps
            && forall t, err | BreaksBefore(run, steps, |steps|, t, err) :: job.skipErrors && err.Skippable?
  {
    var broken := Broken(run, steps, |steps|);
    RunEnd(job, n, run, steps);
    EndSucceeds(run[|steps|], broken);
    forall t: nat, err: Err ensures (t, err) in broken <==> BreaksBefore(run, steps, |steps|, t, err) {
      BrokenIff(run, steps, |steps|, t, err);
    }
  }

  // ---- After a cancellation nothing new is started ----

  predicate LateWorker(x: Worker, late: nat)
  {
    Holds(x) && TaskOf(x) >= late ==> x.Taken? || x == Ready(Failed(TaskOf(x), Canceled, true))
  }

  /** Tasks from `late` on were not yet taken when the pool was cancelled. */
  ghost predicate LateOk(st: State, late: nat)
  {
    && st.workerDone && late <= st.next
    && (forall w | 0 <= w < |st.workers| :: LateWorker(st.workers[w], late))
    && (forall i | 0 <= i < |st.results| && st.results[i].task >= late ::
          st.results[i] == Failed(st.results[i].task, Canceled, true))
  }

  lemma LateBegins(st: State)
    requires Inv(st) && st.workerDone
    ensures LateOk(st, st.next)
  {
  }

  lemma LateStep(st: State, step: Step, late: nat, st': State)
    requires Enabled(st, step) && LateOk(st, late) && st' == Apply(st, step)
    ensures LateOk(st', late)
  {
    if OfWorker(step) {
      assert LateWorker(st.workers[step.w], late);
      assert LateWorker(Target(st, step), late);
    }
  }

  lemma {:induction false} LateRun(run: seq<State>, steps: seq<Step>, i: nat, j: nat, late: nat)
    requires IsRun(run, steps) && i <= j < |run| && LateOk(run[i], late)
    ensures LateOk(run[j], late)
    decreases j
  {
    if i < j {
      LateRun(run, steps, i, j - 1, late);
      LateStep(run[j - 1], steps[j - 1], late, run[j]);
    }
  }

  /** A task that no worker had taken when the pool was cancelled is answered as cancelled, its destination
      as it was. */
  lemma UntakenCancelled(job: Job, n: nat, run: seq<State>, steps: seq<Step>, i: nat, t: nat)
    requires IsPoolRun(job, n, run, steps) && Final(run[|steps|])
    requires i < |run| && run[i].workerDone && run[i].next <= t < |job.tasks|
    ensures Failed(t, Canceled, true) in run[|steps|].results
    ensures Same(job, run[|steps|].disk, job.tasks[t].path)
  {
    RunEnd(job, n, run, steps);
    ReachedFirst(job, n);
    RunInv(run, steps, i);
    LateBegins(run[i]);
    LateRun(run, steps, i, |steps|, run[i].next);
    var r := EveryTaskAnswered(run[|steps|], t);
    assert DoneOk(job, run[|steps|].disk, run[|steps|].results[r]);
  }

  // ---- After a cancellation a cancelled task is an echo ----

  /** A cancellation of task t is marked as an echo. */
  predicate EchoWorker(x: Worker, t: nat)
  {
    (x.Flagged? && x.task == t && x.err.Canceled? ==> x.cancelled) && x != Ready(Failed(t, Canceled, false))
  }

  ghost predicate EchoOk(st: State, t: nat)
  {
    && st.workerDone && Failed(t, Canceled, false) !in st.results
    && forall w | 0 <= w < |st.workers| :: EchoWorker(st.workers[w], t)
  }

  lemma EchoStep(st: State, step: Step, t: nat, st': State)
    requires Follows(st, step, st') && EchoOk(st, t) && st'.workerDone
    ensures EchoOk(st', t)
  {
    if OfWorker(step) {
      assert EchoWorker(st.workers[step.w], t);
      assert EchoWorker(Target(st, step), t);
    }
  }

  lemma StaysCancelled(st: State, step: Step)
    requires Enabled(st, step) && st.workerDone
    ensures Apply(st, step).workerDone
  {
  }

  lemma {:induction false} EchoRun(run: seq<State>, steps: seq<Step>, i: nat, j: nat, t: nat)
    requires IsRun(run, steps) && i <= j < |run| && EchoOk(run[i], t)
    ensures EchoOk(run[j], t)
    decreases j
  {
    if i < j {
      EchoRun(run, steps, i, j - 1, t);
      ApplyFollows(run[j - 1], steps[j - 1]);
      StaysCancelled(run[j - 1], steps[j - 1]);
      EchoStep(run[j - 1], steps[j - 1], t, run[j]);
    }
  }

  /** Task t has not got as far as having its error, if any, judged. */
  ghost predicate Unjudged(st: State, t: nat)
  {
    && !Answered(st.results, t)
    && forall w | 0 <= w < |st.workers| && Holds(st.workers[w]) && TaskOf(st.workers[w]) == t ::
         !st.workers[w].Flagged? && !st.workers[w].Ready?
  }

  /** Once the pool is cancelled, an extraction still under way that gives up with a cancellation counts as an
      echo, so its error is never the one that is returned. */
  lemma EchoesAreMarked(job: Job, n: nat, run: seq<State>, steps: seq<Step>, i: nat, t: nat)
    requires IsPoolRun(job, n, run, steps) && i < |run| && run[i].workerDone && Unjudged(run[i], t)
    ensures Failed(t, Canceled, false) !in run[|steps|].results
    ensures Final(run[|steps|]) ==> Returned(run[|steps|]) != FirstError(Failed(t, Canceled, false))
  {
    ReachedFirst(job, n);
    RunInv(run, steps, |steps|);
    EchoRun(run, steps, i, |steps|, t);
  }

  // ---- What is already there ----

  ghost predicate Coming(workers: seq<Worker>, results: seq<Result>, r: Result)
  {
    (exists w :: 0 <= w < |workers| && workers[w] == Ready(r)) || r in results
  }

  lemma ComingStep(st: State, step: Step, r: Result, st': State)
    requires Follows(st, step, st') && Coming(st.workers, st.results, r)
    ensures Coming(st'.workers, st'.results, r)
  {
    if OfWorker(step) && r !in st.results {
      var w :| 0 <= w < |st.workers| && st.workers[w] == Ready(r);
      if w != step.w {
        assert st'.workers[w] == Ready(r);
      } else {
        assert st'.results[|st.results|] == r;
      }
    }
  }

  lemma {:induction false} ComingRun(run: seq<State>, steps: seq<Step>, i: nat, j: nat, r: Result)
    requires IsRun(run, steps) && i <= j < |run| && Coming(run[i].workers, run[i].results, r)
    ensures Coming(run[j].workers, run[j].results, r)
    decreases j
  {
    if i < j {
      ComingRun(run, steps, i, j - 1, r);
      ApplyFollows(run[j - 1], steps[j - 1]);
      ComingStep(run[j - 1], steps[j - 1], r, run[j]);
    }
  }

  ghost predicate Present(job: Job, disk: map<string, string>, t: nat)
    requires t < |job.tasks|
  {
    var p, key := job.tasks[t].path, job.tasks[t].key;
    && p in disk && key in job.files
    && (job.noOverwrite || (|disk[p]| == job.files[key].size && job.crc(disk[p]) == job.files[key].crc32))
  }

  lemma PresentFound(st: State, step: Step, t: nat)
    requires Enabled(st, step) && step.Look? && step.readable && st.workers[step.w] == Looking(t)
    requires Present(st.job, st.disk, t)
    ensures Target(st, step) == Ready(Done(t, if st.job.noOverwrite then Kept else Identical))
  {
  }

  lemma PresentComes(st: State, step: Step, t: nat, st': State)
    requires Enabled(st, step) && st' == Apply(st, step)
    requires step.Look? && step.readable && st.workers[step.w] == Looking(t) && Present(st.job, st.disk, t)
    ensures Coming(st'.workers, st'.results, Done(t, if st.job.noOverwrite then Kept else Identical))
  {
    PresentFound(st, step, t);
    ApplyFollows(st, step);
    assert st'.workers[step.w] == Ready(Done(t, if st.job.noOverwrite then Kept else Identical));
  }

  lemma {:induction false} RunJob(run: seq<State>, steps: seq<Step>, i: nat)
    requires IsRun(run, steps) && i < |run|
    ensures run[i].job == run[0].job
  {
    if i > 0 {
      RunJob(run, steps, i - 1);
      ApplyFollows(run[i - 1], steps[i - 1]);
    }
  }

  /** A destination that already holds what the record describes is not fetched again, nor one that must not
      be overwritten. */
  lemma PresentIsLeft(job: Job, n: nat, run: seq<State>, steps: seq<Step>, i: nat, t: nat)
    requires IsPoolRun(job, n, run, steps) && Final(run[|steps|]) && i < |steps| && t < |job.tasks|
    requires steps[i].Look? && steps[i].readable && run[i].workers[steps[i].w] == Looking(t)
    requires Present(job, run[i].disk, t)
    ensures Done(t, if job.noOverwrite then Kept else Identical) in run[|steps|].results
  {
    RunJob(run, steps, i);
    PresentComes(run[i], steps[i], t, run[i + 1]);
    ComingRun(run, steps, i + 1, |steps|, Done(t, if job.noOverwrite then Kept else Identical));
  }

  // ---- noOverwrite ----

  /** With noOverwrite no worker gets hold of content for a destination that was there. */
  predicate Keeps(job: Job, x: Worker)
  {
    match x
    case Fetching(t) => t < |job.tasks| ==> job.tasks[t].path !in job.before
    case Decoded(t, _, _) => t < |job.tasks| ==> job.tasks[t].path !in job.before
    case Checked(t, _) => t < |job.tasks| ==> job.tasks[t].path !in job.before
    case Ready(Done(t, how)) => t < |job.tasks| && job.tasks[t].path in job.before ==> how.Kept? || how.Skipped?
    case _ => true
  }

  ghost predicate KeepOk(job: Job, disk: map<string, string>, workers: seq<Worker>, results: seq<Result>)
  {
    && (forall w | 0 <= w < |workers| :: Keeps(job, workers[w]))
    && (forall i | 0 <= i < |results| :: Keeps(job, Ready(results[i])))
    && (forall p | p in job.before :: p in disk && disk[p] == job.before[p])
  }

  lemma TargetKeeps(st: State, step: Step)
    requires Enabled(st, step) && OfWorker(step) && st.job.noOverwrite && Keeps(st.job, st.workers[step.w])
    requires forall p | p in st.job.before :: p in st.disk
    ensures Keeps(st.job, Target(st, step))
  {
  }

  lemma DiskKeeps(st: State, step: Step)
    requires Enabled(st, step) && OfWorker(step) && Keeps(st.job, st.workers[step.w])
    requires forall p | p in st.job.before :: p in st.disk && st.disk[p] == st.job.before[p]
    ensures forall p | p in st.job.before :: p in DiskAfter(st, step) && DiskAfter(st, step)[p] == st.job.before[p]
  {
  }

  lemma KeepMoved(job: Job, disk: map<string, string>, workers: seq<Worker>, results: seq<Result>,
                  w: nat, x: Worker, after: seq<Result>, disk': map<string, string>)
    requires KeepOk(job, disk, workers, results) && w < |workers| && Keeps(job, x)
    requires after == results || (workers[w].Ready? && after == results + [workers[w].result])
    requires forall p | p in job.before :: p in disk' && disk'[p] == job.before[p]
    ensures KeepOk(job, disk', workers[w := x], after)
  {
    assert Keeps(job, workers[w]);
  }

  lemma StepKeeps(st: State, step: Step, st': State)
    requires Follows(st, step, st') && st.job.noOverwrite && KeepOk(st.job, st.disk, st.workers, st.results)
    ensures KeepOk(st.job, st'.disk, st'.workers, st'.results)
  {
    if OfWorker(step) {
      assert Keeps(st.job, st.workers[step.w]);
      TargetKeeps(st, step);
      DiskKeeps(st, step);
      KeepMoved(st.job, st.disk, st.workers, st.results, step.w, Target(st, step), Posted(st, step), st'.disk);
    }
  }

  lemma {:induction false} RunKeeps(job: Job, run: seq<State>, steps: seq<Step>, i: nat)
    requires IsRun(run, steps) && i < |run| && job.noOverwrite
    requires run[0].job == job && KeepOk(job, run[0].disk, run[0].workers, run[0].results)
    ensures run[i].job == job && KeepOk(job, run[i].disk, run[i].workers, run[i].results)
  {
    if i > 0 {
      RunKeeps(job, run, steps, i - 1);
      ApplyFollows(run[i - 1], steps[i - 1]);
      StepKeeps(run[i - 1], steps[i - 1], run[i]);
    }
  }

  /** With noOverwrite no destination that was there ever changes, at any point of any run, and a success for
      its task says that it was kept. */
  lemma NeverOverwrites(job: Job, n: nat, run: seq<State>, steps: seq<Step>, i: nat, p: string)
    requires IsPoolRun(job, n, run, steps) && job.noOverwrite && i < |run| && p in job.before
    ensures p in run[i].disk && run[i].disk[p] == job.before[p]
    ensures forall r | r in run[i].results && r.Done? && r.task < |job.tasks| && job.tasks[r.task].path == p ::
              r.how.Kept? || r.how.Skipped?
  {
    RunKeeps(job, run, steps, i);
    ResultsKept(job, run[i].disk, run[i].workers, run[i].results, p);
  }

  lemma ResultsKept(job: Job, disk: map<string, string>, workers: seq<Worker>, results: seq<Result>, p: string)
    requires KeepOk(job, disk, workers, results) && p in job.before
    ensures forall r | r in results && r.Done? && r.task < |job.tasks| && job.tasks[r.task].path == p ::
              r.how.Kept? || r.how.Skipped?
  {
    forall r | r in results && r.Done? && r.task < |job.tasks| && job.tasks[r.task].path == p
      ensures r.how.Kept? || r.how.Skipped?
    {
      var k :| 0 <= k < |results| && results[k] == r;
      assert Keeps(job, Ready(results[k]));
    }
  }
}
