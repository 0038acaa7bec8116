/** Whole runs of the upload pool: they end, never get stuck, and report what happened. */
module UploadPoolRuns {
  import opened Base
  import opened Keys
  import opened Metadata
  import opened Objects
  import opened UploadPool
  import opened UploadPoolProofs
  import opened UploadPoolBlame
  import opened Counting

  /** A worker leaves only when no task is left, and there are workers if there are tasks:
      RunBackup starts min(concurrency, entries) of them, concurrency being at least 1. */
  ghost predicate NoEarlyExit(st: State)
  {
    && (forall w | 0 <= w < |st.workers| && st.workers[w].Exited? :: st.next >= |st.tasks|)
    && (st.workers == [] ==> st.tasks == [])
  }

  ghost predicate PoolInv(st: State, objects: Objects)
  {
    Inv(st, objects) && NoEarlyExit(st)
  }

  lemma StepNoEarlyExit(st: State, step: Step)
    requires NoEarlyExit(st) && Enabled(st, step)
    ensures NoEarlyExit(Apply(st, step))
  {
    if !step.ParentCancel? && !step.Gather? {
      CountersMove(st, step);
      ExitsLast(st, step);
      StillNoEarlyExit(st, step.w, Apply(st, step));
    }
  }

  lemma ExitsLast(st: State, step: Step)
    requires Enabled(st, step) && !step.ParentCancel? && !step.Gather?
    ensures Apply(st, step).workers[step.w].Exited? ==> st.next >= |st.tasks|
  {
  }

  lemma StillNoEarlyExit(st: State, w: nat, st': State)
    requires NoEarlyExit(st) && At(st, w) && |st'.workers| == |st.workers|
    requires st'.workers == st.workers[w := st'.workers[w]] && st'.tasks == st.tasks && st'.next >= st.next
    requires st'.workers[w].Exited? ==> st.next >= |st.tasks|
    ensures NoEarlyExit(st')
  {
  }

  lemma StepPoolInv(st: State, objects: Objects, step: Step)
    requires PoolInv(st, objects) && Enabled(st, step)
    ensures PoolInv(Apply(st, step), ApplyObjects(objects, st, step))
  {
    StepInv(st, objects, step);
    StepNoEarlyExit(st, step);
  }

  lemma InitPoolInv(tasks: seq<Task>, existing: map<Key, FileRecord>, seal: Seal, n: nat, objects: Objects)
    requires n == 0 ==> tasks == []
    ensures PoolInv(Init(tasks, existing, seal, n), objects)
  {
    InitInv(tasks, existing, seal, n, objects);
  }

  /** At the end every task was taken and answered. */
  lemma FinalCounts(st: State, objects: Objects)
    requires PoolInv(st, objects) && Final(st)
    ensures st.next == |st.tasks| == |st.results|
  {
    SumConstant(st.workers, One, 0);
    if st.workers != [] {
      assert st.workers[0].Exited?;
    }
  }

  // ---- No reachable state is stuck ----

  /** In every state that is not final some step of a worker or of the gather loop is possible:
      a waiter only waits on a flight whose owner is itself uploading. */
  lemma NotStuck(st: State, objects: Objects) returns (step: Step)
    requires Inv(st, objects) && !Final(st)
    ensures Enabled(st, step) && !step.ParentCancel?
  {
    if forall w | 0 <= w < |st.workers| :: st.workers[w].Exited? {
      step := Gather;
    } else {
      var w :| 0 <= w < |st.workers| && !st.workers[w].Exited?;
      if st.workers[w].Waiting? && st.flights[st.workers[w].key].Pending? {
        var o := st.flights[st.workers[w].key].owner;
        assert HasOwner(st.workers, st.flights, st.workers[w].key);
        step := WorkerStep(st, objects, o);
      } else {
        step := WorkerStep(st, objects, w);
      }
    }
  }

  lemma WorkerStep(st: State, objects: Objects, w: nat) returns (step: Step)
    requires Inv(st, objects) && At(st, w) && !st.workers[w].Exited?
    requires st.workers[w].Waiting? ==> !st.flights[st.workers[w].key].Pending?
    ensures Enabled(st, step) && !step.ParentCancel?
  {
    match st.workers[w]
    case Idle => step := if st.next < |st.tasks| then Take(w) else Exit(w);
    case Taken(t) =>
      HeldTask(st, w);
      step := Check(w);
    case Keying(t) => step := KeyFailed(w, TaskFailed(t));
    case Keyed(_, _) => step := Lock(w);
    case Owning(t, _) => step := UploadFailed(w, TaskFailed(t), None);
    case Written(_, _, _) => step := Land(w);
    case Waiting(_, _) => step := Wake(w);
    case Failing(_, _) => step := Cancel(w);
    case Ready(_) => step := Post(w);
  }

  // ---- Every run ends ----

  function Weight(x: Worker): nat
  {
    match x
    case Taken(_) => 9
    case Keying(_) => 8
    case Keyed(_, _) => 7
    case Owning(_, _) => 6
    case Waiting(_, _) => 6
    case Written(_, _, _) => 5
    case Failing(_, _) => 4
    case Ready(_) => 3
    case Idle => 1
    case Exited => 0
  }

  /** What is left to do, in steps. */
  function Remaining(st: State): int
  {
    10 * (|st.tasks| - st.next) + Sum(st.workers, Weight) + (|st.results| - st.gathered)
        + (if st.parentDone then 0 else 1)
  }

  lemma StepProgress(st: State, objects: Objects, step: Step)
    requires Inv(st, objects) && Enabled(st, step)
    ensures 0 <= Remaining(Apply(st, step)) < Remaining(st)
  {
    StepInv(st, objects, step);
    RemainingDrops(st, step);
  }

  lemma RemainingDrops(st: State, step: Step)
    requires Enabled(st, step)
    ensures Remaining(Apply(st, step)) < Remaining(st)
  {
    if !step.ParentCancel? && !step.Gather? {
      var st' := Apply(st, step);
      SumMove(st.workers, Weight, step.w, st'.workers[step.w]);
      WeightDrops(st, step);
      CountersMove(st, step);
    }
  }

  lemma CountersMove(st: State, step: Step)
    requires Enabled(st, step) && !step.ParentCancel? && !step.Gather?
    ensures var st' := Apply(st, step);
            && st'.workers == st.workers[step.w := st'.workers[step.w]]
            && st'.tasks == st.tasks && st'.existing == st.existing
            && st'.gathered == st.gathered && st'.parentDone == st.parentDone
            && st'.next == st.next + (if step.Take? then 1 else 0)
            && |st'.results| == |st.results| + (if step.Post? then 1 else 0)
  {
  }

  lemma WeightDrops(st: State, step: Step)
    requires Enabled(st, step) && !step.ParentCancel? && !step.Gather?
    ensures Weight(Apply(st, step).workers[step.w]) + (if step.Post? then 1 else 0)
            < Weight(st.workers[step.w]) + (if step.Take? then 10 else 0)
  {
  }

  ghost predicate IsRun(run: seq<(State, Objects)>, steps: seq<Step>)
  {
    && |run| == |steps| + 1
    && forall i {:trigger steps[i]} | 0 <= i < |steps| ::
         Enabled(run[i].0, steps[i]) &&
         run[i + 1] == (Apply(run[i].0, steps[i]), ApplyObjects(run[i].1, run[i].0, steps[i]))
  }

  /** The state and the objects i steps after a state with this much left to do. */
  ghost predicate Reached(left: int, a: (State, Objects), i: nat)
  {
    Inv(a.0, a.1) && 0 <= Remaining(a.0) && i + Remaining(a.0) <= left
  }

  lemma OneStep(left: int, a: (State, Objects), i: nat, step: Step, b: (State, Objects))
    requires Reached(left, a, i) && Enabled(a.0, step) && b == (Apply(a.0, step), ApplyObjects(a.1, a.0, step))
    ensures Reached(left, b, i + 1)
  {
    StepInv(a.0, a.1, step);
    StepProgress(a.0, a.1, step);
  }

  lemma RunStep(left: int, run: seq<(State, Objects)>, steps: seq<Step>, i: nat)
    requires IsRun(run, steps) && 0 < i < |run| && Reached(left, run[i - 1], i - 1)
    ensures Reached(left, run[i], i)
  {
    assert Enabled(run[i - 1].0, steps[i - 1]);
    OneStep(left, run[i - 1], i - 1, steps[i - 1], run[i]);
  }

  lemma {:induction false} RunInv(left: int, run: seq<(State, Objects)>, steps: seq<Step>, i: nat)
    requires IsRun(run, steps) && Reached(left, run[0], 0) && i < |run|
    ensures Reached(left, run[i], i)
  {
    if i > 0 {
      RunInv(left, run, steps, i - 1);
      RunStep(left, run, steps, i);
    }
  }

  /** From the start of a run with n workers at most 10 * tasks + n + 1 steps are possible, in any
      order; and where no step is possible any more, the run is complete. */
  lemma RunsEnd(tasks: seq<Task>, existing: map<Key, FileRecord>, seal: Seal, n: nat,
                run: seq<(State, Objects)>, steps: seq<Step>)
    requires IsRun(run, steps) && run[0].0 == Init(tasks, existing, seal, n)
    ensures |steps| <= 10 * |tasks| + n + 1
    ensures (forall step :: Enabled(run[|steps|].0, step) ==> step.ParentCancel?) ==> Final(run[|steps|].0)
  {
    InitInv(tasks, existing, seal, n, run[0].1);
    SumConstant(Init(tasks, existing, seal, n).workers, Weight, 1);
    RunInv(Remaining(run[0].0), run, steps, |steps|);
    if !Final(run[|steps|].0) {
      var step := NotStuck(run[|steps|].0, run[|steps|].1);
    }
  }

  // ---- What the end means ----

  /** Every task has exactly one result. */
  lemma EveryTaskAnswered(st: State, objects: Objects, t: nat) returns (i: nat)
    requires PoolInv(st, objects) && Final(st) && t < |st.tasks|
    ensures i < |st.results| && st.results[i].task == t
    ensures forall j | 0 <= j < |st.results| && st.results[j].task == t :: j == i
  {
    FinalCounts(st, objects);
    var ids := seq(|st.results|, j requires 0 <= j < |st.results| => st.results[j].task);
    i := AllBelow(ids, |st.tasks|, t);
  }

  /** The run reports success exactly when nothing cancelled it, and then every task succeeded:
      every key it uses is in the loaded metadata or was uploaded once, and its part is committed. */
  lemma CompleteMeansStored(st: State, objects: Objects)
    requires PoolInv(st, objects) && Final(st)
    ensures RunError(st).Complete? <==> st.cause.None?
    ensures RunError(st).Complete? ==>
              forall i | 0 <= i < |st.results| ::
                match st.results[i]
                case IsDir(t) => true
                case Stored(t, k, rec) =>
                  if k in st.existing then rec == st.existing[k] else FreshPart(st.seal, objects, k, rec)
                case Failed(_, _) => false
  {
    FinalCounts(st, objects);
    forall i | 0 <= i < |st.results| && st.cause.None?
      ensures !st.results[i].Failed?
      ensures st.results[i].Stored? ==>
                var k, rec := st.results[i].key, st.results[i].record;
                if k in st.existing then rec == st.existing[k] else FreshPart(st.seal, objects, k, rec)
    {
      assert ResultOk(st, st.results[i]);
    }
  }

  /** One record per key: two entries with the same content share one upload and one record. */
  lemma SameKeySameRecord(st: State, objects: Objects, i: nat, j: nat)
    requires Inv(st, objects) && i < |st.results| && j < |st.results|
    requires st.results[i].Stored? && st.results[j].Stored? && st.results[i].key == st.results[j].key
    ensures st.results[i].record == st.results[j].record
  {
    assert ResultOk(st, st.results[i]) && ResultOk(st, st.results[j]);
  }

  /** uploadPart is started at most once per key, and never for a key of the loaded metadata. */
  lemma UploadsOnce(st: State, objects: Objects, i: nat, j: nat)
    requires Inv(st, objects) && i < |st.started| && j < |st.started|
    ensures st.started[i] !in st.existing
    ensures st.started[i] == st.started[j] ==> i == j
  {
    assert st.started[i] in st.started;
  }

  /** A failed run returns the result of the entry it names, never the cancellation that entry caused in
      its siblings, unless the caller itself cancelled. */
  lemma RootCause(st: State, objects: Objects)
    requires PoolInv(st, objects) && BlameOk(st) && Final(st) && !RunError(st).Complete?
    ensures if st.parentDone then RunError(st).Incomplete?
            else RunError(st).Cause? && RunError(st).err.TaskFailed? &&
                 Failed(RunError(st).err.task, RunError(st).err) in st.results
  {
    CompleteMeansStored(st, objects);
    if !st.parentDone {
      CauseIsAResult(st);
    }
  }

  /** A run changes no object other than the parts of keys it started to upload. */
  lemma StepLeavesOthers(st: State, objects: Objects, step: Step, name: string)
    requires Inv(st, objects) && Enabled(st, step)
    requires forall k | k in st.started :: PartKeyFor(k) != name
    ensures name in ApplyObjects(objects, st, step) <==> name in objects
    ensures name in objects ==> ApplyObjects(objects, st, step)[name] == objects[name]
  {
    if step.Commit? || step.UploadFailed? {
      assert st.workers[step.w].key in st.flights;
      assert st.workers[step.w].key in st.started;
    }
  }

  // ---- The same, said of runs ----

  ghost predicate IsPoolRun(tasks: seq<Task>, existing: map<Key, FileRecord>, seal: Seal, n: nat,
                            run: seq<(State, Objects)>, steps: seq<Step>)
  {
    IsRun(run, steps) && run[0].0 == Init(tasks, existing, seal, n) && (n == 0 ==> tasks == [])
  }

  lemma {:induction false} RunPoolInv(tasks: seq<Task>, existing: map<Key, FileRecord>, seal: Seal, n: nat,
                                      run: seq<(State, Objects)>, steps: seq<Step>, i: nat)
    requires IsPoolRun(tasks, existing, seal, n, run, steps) && i < |run|
    ensures PoolInv(run[i].0, run[i].1) && BlameOk(run[i].0)
    ensures run[i].0.tasks == tasks && run[i].0.existing == existing
  {
    if i == 0 {
      InitPoolInv(tasks, existing, seal, n, run[0].1);
      InitBlame(tasks, existing, seal, n);
    } else {
      RunPoolInv(tasks, existing, seal, n, run, steps, i - 1);
      StepPoolInv(run[i - 1].0, run[i - 1].1, steps[i - 1]);
      StepBlame(run[i - 1].0, steps[i - 1]);
      InputStays(run[i - 1].0, steps[i - 1]);
    }
  }

  lemma InputStays(st: State, step: Step)
    requires Enabled(st, step)
    ensures Apply(st, step).tasks == st.tasks && Apply(st, step).existing == st.existing
  {
    if !step.ParentCancel? && !step.Gather? {
      CountersMove(st, step);
    }
  }

  /** In every interleaving each key is uploaded at most once, never if the loaded metadata has it, and all
      successful entries with that key carry one record. */
  lemma RunUploadsOnce(tasks: seq<Task>, existing: map<Key, FileRecord>, seal: Seal, n: nat,
                       run: seq<(State, Objects)>, steps: seq<Step>, at: nat)
    requires IsPoolRun(tasks, existing, seal, n, run, steps) && at < |run|
    ensures forall i | 0 <= i < |run[at].0.started| :: run[at].0.started[i] !in existing
    ensures forall i, j | 0 <= i < j < |run[at].0.started| :: run[at].0.started[i] != run[at].0.started[j]
    ensures forall i, j | 0 <= i < j < |run[at].0.results| && run[at].0.results[i].Stored?
              && run[at].0.results[j].Stored?
                          && run[at].0.results[i].key == run[at].0.results[j].key ::
              run[at].0.results[i].record == run[at].0.results[j].record
  {
    RunPoolInv(tasks, existing, seal, n, run, steps, at);
    var st, objects := run[at].0, run[at].1;
    forall i, j | 0 <= i < j < |st.started| ensures st.started[i] !in existing && st.started[i] != st.started[j] {
      UploadsOnce(st, objects, i, j);
    }
    forall i | 0 <= i < |st.started| ensures st.started[i] !in existing {
      UploadsOnce(st, objects, i, i);
    }
    forall i, j | 0 <= i < j < |st.results| && st.results[i].Stored? && st.results[j].Stored?
        && st.results[i].key == st.results[j].key
      ensures st.results[i].record == st.results[j].record
    {
      SameKeySameRecord(st, objects, i, j);
    }
  }

  /** Where every run ends up: each entry has exactly one result; the run is complete exactly when no
      entry failed and the caller did not cancel; and while the caller is live, an incomplete run returns
      the error of an entry whose own result is that failure. */
  lemma RunAnswers(tasks: seq<Task>, existing: map<Key, FileRecord>, seal: Seal, n: nat,
                   run: seq<(State, Objects)>, steps: seq<Step>, t: nat) returns (i: nat)
    requires IsPoolRun(tasks, existing, seal, n, run, steps) && Final(run[|steps|].0) && t < |tasks|
    ensures var st := run[|steps|].0;
            && i < |st.results| && st.results[i].task == t
            && (forall j | 0 <= j < |st.results| && st.results[j].task == t :: j == i)
            && (RunError(st).Complete? <==>
                 !st.parentDone && forall j | 0 <= j < |st.results| :: !st.results[j].Failed?)
            && (!RunError(st).Complete? && !st.parentDone ==>
                  && RunError(st).Cause? && RunError(st).err.TaskFailed?
                  && exists j :: 0 <= j < |st.results|
                       && st.results[j] == Failed(RunError(st).err.task, RunError(st).err))
  {
    RunPoolInv(tasks, existing, seal, n, run, steps, |steps|);
    var st, objects := run[|steps|].0, run[|steps|].1;
    i := EveryTaskAnswered(st, objects, t);
    CompleteMeansStored(st, objects);
    if RunError(st).Complete? {
      assert st.cause.None?;
    } else {
      RootCause(st, objects);
    }
  }
}
