/** What the end of an upload run tells of its past (tsync/backup.go: process, uploadOnce, the gather loop,
    runError): an entry fails only through itself or through another that did, and nothing else fails a run. */
module UploadPoolHistory {
  import opened Base
  import opened Keys
  import opened Metadata
  import opened Objects
  import opened UploadPool
  import Proofs = UploadPoolProofs
  import opened UploadPoolBlame
  import opened UploadPoolRuns

  /** In this step the key computation or the upload of entry u fails, in the hands of the worker that holds u. */
  ghost predicate FailsItself(st: State, step: Step, u: nat)
  {
    && (step.KeyFailed? || step.UploadFailed?) && At(st, step.w) && step.err == TaskFailed(u)
    && (st.workers[step.w].Keying? || st.workers[step.w].Owning?) && st.workers[step.w].task == u
  }

  /** The entries that failed by themselves in one step, and in the first i. */
  ghost function Own(st: State, step: Step): set<nat>
  {
    if (step.KeyFailed? || step.UploadFailed?) && step.err.TaskFailed? then {step.err.task} else {}
  }

  ghost function Broken(run: seq<(State, Objects)>, steps: seq<Step>, i: nat): set<nat>
    requires i <= |steps| <= |run|
  {
    if i == 0 then {} else Broken(run, steps, i - 1) + Own(run[i - 1].0, steps[i - 1])
  }

  lemma OwnIff(st: State, step: Step, u: nat)
    requires Enabled(st, step)
    ensures u in Own(st, step) <==> FailsItself(st, step, u)
  {
  }

  /** Entry u failed by itself in one of the first i steps. */
  ghost predicate FailedBefore(run: seq<(State, Objects)>, steps: seq<Step>, i: nat, u: nat)
    requires i <= |steps| <= |run|
  {
    exists k :: 0 <= k < i && FailsItself(run[k].0, steps[k], u)
  }

  lemma {:induction false} BrokenIff(run: seq<(State, Objects)>, steps: seq<Step>, i: nat, u: nat)
    requires IsRun(run, steps) && i <= |steps|
    ensures u in Broken(run, steps, i) <==> FailedBefore(run, steps, i, u)
  {
    if i > 0 {
      BrokenIff(run, steps, i - 1, u);
      OwnIff(run[i - 1].0, steps[i - 1], u);
      OneMore(run, steps, i, u);
    }
  }

  lemma OneMore(run: seq<(State, Objects)>, steps: seq<Step>, i: nat, u: nat)
    requires 0 < i <= |steps| <= |run|
    ensures FailedBefore(run, steps, i, u) <==>
            FailedBefore(run, steps, i - 1, u) || FailsItself(run[i - 1].0, steps[i - 1], u)
  {
  }

  // ---- Errors come only from entries that failed ----

  predicate FromErr(err: Err, broken: set<nat>) { err.TaskFailed? ==> err.task in broken }

  predicate FromWorker(x: Worker, broken: set<nat>)
  {
    && (x.Failing? ==> FromErr(x.err, broken))
    && (x.Ready? && x.result.Failed? ==> FromErr(x.result.err, broken))
  }

  ghost predicate FromWorkers(workers: seq<Worker>, broken: set<nat>)
  {
    forall w | 0 <= w < |workers| :: FromWorker(workers[w], broken)
  }

  ghost predicate FromResults(results: seq<Result>, broken: set<nat>)
  {
    forall i | 0 <= i < |results| && results[i].Failed? :: FromErr(results[i].err, broken)
  }

  ghost predicate FromShared(st: State, broken: set<nat>)
  {
    && (forall k | k in st.flights && st.flights[k].Crashed? :: FromErr(st.flights[k].err, broken))
    && (st.cause.Some? ==> FromErr(st.cause.value, broken))
    && (st.firstErr.Some? ==> FromErr(st.firstErr.value, broken))
  }

  ghost predicate From(st: State, broken: set<nat>)
  {
    FromWorkers(st.workers, broken) && FromResults(st.results, broken) && FromShared(st, broken)
  }

  /** The error a worker is left with: its own, or one that was already about. */
  lemma WorkerFrom(st: State, step: Step, broken: set<nat>)
    requires Enabled(st, step) && !step.ParentCancel? && !step.Gather? && From(st, broken)
    ensures FromWorker(Apply(st, step).workers[step.w], broken + Own(st, step))
  {
    assert FromWorker(st.workers[step.w], broken);
  }

  lemma OneMoves(st: State, w: nat, x: Worker, after: seq<Result>, broken: set<nat>, more: set<nat>)
    requires From(st, broken) && w < |st.workers| && FromWorker(x, more) && broken <= more
    requires after == st.results || (st.workers[w].Ready? && after == st.results + [st.workers[w].result])
    ensures FromWorkers(st.workers[w := x], more) && FromResults(after, more)
  {
    assert FromWorker(st.workers[w], broken);
  }

  lemma SharedFrom(st: State, step: Step, broken: set<nat>, st': State)
    requires Enabled(st, step) && !step.ParentCancel? && !step.Gather? && st' == Apply(st, step)
    requires FromShared(st, broken) && FromWorker(st'.workers[step.w], broken + Own(st, step))
    ensures FromShared(st', broken + Own(st, step))
  {
    StepMoves(st, step);
    StepShares(st, step);
  }

  lemma OutsideFrom(st: State, step: Step, broken: set<nat>, st': State)
    requires Enabled(st, step) && (step.ParentCancel? || step.Gather?) && From(st, broken) && st' == Apply(st, step)
    ensures From(st', broken)
  {
  }

  lemma StepFrom(st: State, step: Step, broken: set<nat>, st': State)
    requires Enabled(st, step) && From(st, broken) && st' == Apply(st, step)
    ensures From(st', broken + Own(st, step))
  {
    if !step.ParentCancel? && !step.Gather? {
      WorkerFrom(st, step, broken);
      StepMoves(st, step);
      OneMoves(st, step.w, st'.workers[step.w], st'.results, broken, broken + Own(st, step));
      SharedFrom(st, step, broken, st');
    } else {
      OutsideFrom(st, step, broken, st');
    }
  }

  // ---- Every entry that failed has its failure as its result, or is about to ----

  lemma FailureStays(st: State, step: Step, u: nat, st': State)
    requires Enabled(st, step) && st' == Apply(st, step)
    requires Origin(st.workers, st.results, u) || u in Own(st, step)
    ensures Origin(st'.workers, st'.results, u)
  {
    if !step.ParentCancel? && !step.Gather? {
      StepMoves(st, step);
      if u in Own(st, step) {
        assert Carries(st'.workers[step.w], u);
      } else {
        OriginStays(st.workers, st.results, step.w, st'.workers[step.w], st'.results, u);
      }
    }
  }

  ghost predicate AllOnTheWay(st: State, broken: set<nat>)
  {
    forall u | u in broken :: Origin(st.workers, st.results, u)
  }

  lemma {:induction false} RunFrom(run: seq<(State, Objects)>, steps: seq<Step>, i: nat)
    requires IsRun(run, steps) && i < |run| && From(run[0].0, {})
    ensures From(run[i].0, Broken(run, steps, i)) && AllOnTheWay(run[i].0, Broken(run, steps, i))
  {
    if i > 0 {
      RunFrom(run, steps, i - 1);
      var before := Broken(run, steps, i - 1);
      StepFrom(run[i - 1].0, steps[i - 1], before, run[i].0);
      forall u | u in before + Own(run[i - 1].0, steps[i - 1]) ensures Origin(run[i].0.workers, run[i].0.results, u) {
        FailureStays(run[i - 1].0, steps[i - 1], u, run[i].0);
      }
    }
  }

  /** The caller's cancellation is remembered, and nothing else sets it. */
  lemma {:induction false} RunParent(run: seq<(State, Objects)>, steps: seq<Step>, i: nat)
    requires IsRun(run, steps) && i < |run| && !run[0].0.parentDone
    ensures run[i].0.parentDone <==> ParentCancel in steps[..i]
  {
    if i > 0 {
      RunParent(run, steps, i - 1);
      assert steps[..i] == steps[..i - 1] + [steps[i - 1]];
      ParentStep(run[i - 1].0, steps[i - 1]);
    }
  }

  lemma ParentStep(st: State, step: Step)
    requires Enabled(st, step)
    ensures Apply(st, step).parentDone == (st.parentDone || step.ParentCancel?)
  {
    if !step.ParentCancel? && !step.Gather? {
      CountersMove(st, step);
    }
  }

  /** What holds at the end, of the set of entries that failed by themselves. */
  lemma EndOf(st: State, objects: Objects, broken: set<nat>)
    requires PoolInv(st, objects) && Final(st) && From(st, broken) && AllOnTheWay(st, broken)
    ensures forall u :: Failed(u, TaskFailed(u)) in st.results <==> u in broken
    ensures forall i | 0 <= i < |st.results| && st.results[i].Failed? :: FromErr(st.results[i].err, broken)
    ensures RunError(st).Complete? <==> !st.parentDone && broken == {}
  {
    CompleteMeansStored(st, objects);
    forall u | u in broken ensures Failed(u, TaskFailed(u)) in st.results && st.cause.Some? {
      assert Origin(st.workers, st.results, u);
      var i :| 0 <= i < |st.results| && st.results[i] == Failed(u, TaskFailed(u));
      assert Proofs.ResultOk(st, st.results[i]);
    }
  }

  lemma RunEnd(tasks: seq<Task>, existing: map<Key, FileRecord>, seal: Seal, n: nat,
               run: seq<(State, Objects)>, steps: seq<Step>)
    requires IsPoolRun(tasks, existing, seal, n, run, steps)
    ensures PoolInv(run[|steps|].0, run[|steps|].1)
    ensures From(run[|steps|].0, Broken(run, steps, |steps|))
    ensures AllOnTheWay(run[|steps|].0, Broken(run, steps, |steps|))
    ensures run[|steps|].0.parentDone <==> ParentCancel in steps
  {
    RunPoolInv(tasks, existing, seal, n, run, steps, |steps|);
    RunFrom(run, steps, |steps|);
    RunParent(run, steps, |steps|);
    assert steps[..|steps|] == steps;
  }

  /** An entry's result is its own failure exactly when its key computation or its upload failed in some step,
      and every other failed result passes on the failure of such an entry, or a cancellation. */
  lemma FailedIff(tasks: seq<Task>, existing: map<Key, FileRecord>, seal: Seal, n: nat,
                  run: seq<(State, Objects)>, steps: seq<Step>, u: nat)
    requires IsPoolRun(tasks, existing, seal, n, run, steps) && Final(run[|steps|].0)
    ensures Failed(u, TaskFailed(u)) in run[|steps|].0.results <==> FailedBefore(run, steps, |steps|, u)
    ensures forall t | Failed(t, TaskFailed(u)) in run[|steps|].0.results :: FailedBefore(run, steps, |steps|, u)
  {
    RunEnd(tasks, existing, seal, n, run, steps);
    EndOf(run[|steps|].0, run[|steps|].1, Broken(run, steps, |steps|));
    BrokenIff(run, steps, |steps|, u);
  }

  /** A finished run succeeds exactly when no entry's own key computation or upload failed and the caller did
      not cancel: waiting for another worker, finding a key in the loaded metadata or sharing an upload never
      fails a run. */
  lemma SucceedsIff(tasks: seq<Task>, existing: map<Key, FileRecord>, seal: Seal, n: nat,
                    run: seq<(State, Objects)>, steps: seq<Step>)
    requires IsPoolRun(tasks, existing, seal, n, run, steps) && Final(run[|steps|].0)
    ensures RunError(run[|steps|].0).Complete? <==>
            ParentCancel !in steps && forall u :: !FailedBefore(run, steps, |steps|, u)
  {
    var broken := Broken(run, steps, |steps|);
    RunEnd(tasks, existing, seal, n, run, steps);
    EndOf(run[|steps|].0, run[|steps|].1, broken);
    forall u: nat ensures u in broken <==> FailedBefore(run, steps, |steps|, u) {
      BrokenIff(run, steps, |steps|, u);
    }
    if broken != {} {
      var u :| u in broken;
      assert FailedBefore(run, steps, |steps|, u);
    }
  }

  // ---- After the first failure nothing new is started ----

  /** Entries from `late` on were not yet taken when the run was cancelled with err. */
  predicate LateWorker(x: Worker, late: nat, err: Err)
  {
    Proofs.Holds(x) && Proofs.TaskOf(x) >= late ==> x.Taken? || x == Ready(Failed(Proofs.TaskOf(x), err))
  }

  ghost predicate LateOk(st: State, late: nat, err: Err)
  {
    && st.cause == Some(err) && late <= st.next
    && (forall w | 0 <= w < |st.workers| :: LateWorker(st.workers[w], late, err))
    && (forall i | 0 <= i < |st.results| && st.results[i].task >= late ::
          st.results[i] == Failed(st.results[i].task, err))
  }

  lemma LateBegins(st: State, objects: Objects)
    requires Proofs.Inv(st, objects) && st.cause.Some?
    ensures LateOk(st, st.next, st.cause.value)
  {
  }

  lemma LateWorkerStep(st: State, step: Step, late: nat, err: Err)
    requires Enabled(st, step) && !step.ParentCancel? && !step.Gather? && LateOk(st, late, err)
    ensures LateWorker(Apply(st, step).workers[step.w], late, err) && Apply(st, step).cause == Some(err)
  {
    assert LateWorker(st.workers[step.w], late, err);
  }

  lemma LateStep(st: State, step: Step, late: nat, err: Err, st': State)
    requires Enabled(st, step) && LateOk(st, late, err) && st' == Apply(st, step)
    ensures LateOk(st', late, err)
  {
    if !step.ParentCancel? && !step.Gather? {
      LateWorkerStep(st, step, late, err);
      StepMoves(st, step);
      CountersMove(st, step);
      assert LateWorker(st.workers[step.w], late, err);
    }
  }

  lemma {:induction false} LateRun(run: seq<(State, Objects)>, steps: seq<Step>, i: nat, j: nat, late: nat, err: Err)
    requires IsRun(run, steps) && i <= j < |run| && LateOk(run[i].0, late, err)
    ensures LateOk(run[j].0, late, err)
    decreases j
  {
    if i < j {
      LateRun(run, steps, i, j - 1, late, err);
      LateStep(run[j - 1].0, steps[j - 1], late, err, run[j].0);
    }
  }

  /** The first cause stays, and an entry that no worker had taken when it struck ends with it, its key
      never computed and nothing of it uploaded. */
  lemma UntakenFail(tasks: seq<Task>, existing: map<Key, FileRecord>, seal: Seal, n: nat,
                    run: seq<(State, Objects)>, steps: seq<Step>, i: nat, t: nat)
    requires IsPoolRun(tasks, existing, seal, n, run, steps) && Final(run[|steps|].0)
    requires i < |run| && run[i].0.cause.Some? && run[i].0.next <= t < |tasks|
    ensures run[|steps|].0.cause == run[i].0.cause
    ensures Failed(t, run[i].0.cause.value) in run[|steps|].0.results
  {
    RunPoolInv(tasks, existing, seal, n, run, steps, i);
    LateBegins(run[i].0, run[i].1);
    LateRun(run, steps, i, |steps|, run[i].0.next, run[i].0.cause.value);
    RunPoolInv(tasks, existing, seal, n, run, steps, |steps|);
    var r := EveryTaskAnswered(run[|steps|].0, run[|steps|].1, t);
  }
}
