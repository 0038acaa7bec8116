/** What every interleaving of the restore pool keeps, that it ends, and what its return value means. */
module RestorePoolProofs {
  import opened Base
  import opened RestorePool
  import opened Counting

  // ---- The invariant ----

  predicate Holds(x: Worker) { !x.Idle? && !x.Exited? }

  function TaskOf(x: Worker): nat
    requires Holds(x)
  {
    if x.Ready? then x.result.task else x.task
  }

  function One(x: Worker): nat { if Holds(x) then 1 else 0 }

  ghost predicate Answered(results: seq<Result>, t: nat)
  {
    exists i :: 0 <= i < |results| && results[i].task == t
  }

  /** Every task handed out is with exactly one worker or has exactly one result. */
  ghost predicate OnePlaceEach(next: nat, workers: seq<Worker>, results: seq<Result>)
  {
    && (forall w | 0 <= w < |workers| && Holds(workers[w]) ::
          TaskOf(workers[w]) < next && !Answered(results, TaskOf(workers[w])))
    && (forall w, v | 0 <= w < v < |workers| && Holds(workers[w]) && Holds(workers[v]) ::
         TaskOf(workers[w]) != TaskOf(workers[v]))
    && (forall i | 0 <= i < |results| :: results[i].task < next)
    && (forall i, j | 0 <= i < j < |results| :: results[i].task != results[j].task)
    && |results| + Sum(workers, One) == next
  }

  ghost predicate FeedOk(st: State)
  {
    && st.next <= st.fed <= |st.job.tasks| && (st.closed ==> st.fed == |st.job.tasks|)
    && st.gathered <= |st.results|
    && (forall w | 0 <= w < |st.workers| && st.workers[w].Exited? :: st.closed && st.next == st.fed)
  }

  ghost predicate TasksOk(st: State)
  {
    FeedOk(st) && OnePlaceEach(st.next, st.workers, st.results)
  }

  predicate Marked(r: Result) { r.Failed? && r.cancelled }

  predicate RootCause(r: Result) { r.Failed? && !r.cancelled }

  /** Some worker has recorded a failure that is not an echo of the cancellation. */
  ghost predicate RootRecorded(workers: seq<Worker>, results: seq<Result>)
  {
    || (exists w :: 0 <= w < |workers| && workers[w].Ready? && RootCause(workers[w].result))
    || (exists i :: 0 <= i < |results| && RootCause(results[i]))
  }

  ghost predicate Echo(x: Worker)
  {
    (x.Flagged? && x.cancelled) || (x.Ready? && Marked(x.result))
  }

  /** Only a cancelled pool marks results as cancelled, and only the caller or a recorded failure cancels it. */
  ghost predicate CancelOk(workers: seq<Worker>, results: seq<Result>, workerDone: bool, parentDone: bool)
  {
    && (forall w | 0 <= w < |workers| && Echo(workers[w]) :: workerDone)
    && (forall i | 0 <= i < |results| && Marked(results[i]) :: workerDone)
    && (workerDone ==> parentDone || RootRecorded(workers, results))
  }

  ghost predicate GatherOk(results: seq<Result>, gathered: nat, firstErr: Option<Result>, done: nat)
  {
    && gathered <= |results| && done <= gathered
    && (done == gathered <==> forall i | 0 <= i < gathered :: results[i].Done?)
    && (firstErr.None? <==> forall i | 0 <= i < gathered :: !RootCause(results[i]))
    && (firstErr.Some? ==> FirstRoot(results, firstErr.value))
  }

  /** The first of the results, in the order they arrived, that is not an echo of the cancellation. */
  ghost predicate FirstRoot(results: seq<Result>, r: Result)
  {
    RootCause(r) && exists i :: 0 <= i < |results| && results[i] == r && forall j | 0 <= j < i :: !RootCause(results[j])
  }

  /** The record of a task vouches for these bytes. */
  ghost predicate Vouched(job: Job, t: nat, bytes: string)
  {
    t < |job.tasks| && job.tasks[t].key in job.files && Matches(job, job.files[job.tasks[t].key], bytes)
  }

  ghost predicate Untouched(job: Job, disk: map<string, string>, p: string)
  {
    p in disk && p in job.before && disk[p] == job.before[p]
  }

  ghost predicate Restores(job: Job, disk: map<string, string>, p: string)
  {
    p in disk && exists t :: 0 <= t < |job.tasks| && job.tasks[t].path == p && Vouched(job, t, disk[p])
  }

  /** Nothing half-written is ever visible: a destination is as it was or holds verified content. */
  ghost predicate DiskOk(job: Job, disk: map<string, string>)
  {
    && (forall p | p in disk :: Untouched(job, disk, p) || Restores(job, disk, p))
    && (forall p | p in job.before :: p in disk)
  }

  ghost predicate WorkerOk(job: Job, x: Worker)
  {
    && (x.Fetching? || x.Decoded? ==> x.task < |job.tasks| && job.tasks[x.task].key in job.files)
    && (x.Checked? ==> Vouched(job, x.task, x.bytes))
  }

  ghost predicate WorkersOk(job: Job, workers: seq<Worker>)
  {
    forall w | 0 <= w < |workers| :: WorkerOk(job, workers[w])
  }

  /** The destination is exactly as the caller left it. */
  ghost predicate Same(job: Job, disk: map<string, string>, p: string)
  {
    (p in disk <==> p in job.before) && (p in disk ==> disk[p] == job.before[p])
  }

  /** A result says the truth about its destination; all but a restored one leave it alone. */
  ghost predicate DoneOk(job: Job, disk: map<string, string>, r: Result)
  {
    && r.task < |job.tasks|
    && var p := job.tasks[r.task].path;
       match r
       case Done(t, Restored) => p in disk && Vouched(job, t, disk[p])
       case Done(t, Identical) => Same(job, disk, p) && p in disk && Vouched(job, t, disk[p])
       case Done(t, Kept) => Same(job, disk, p) && job.noOverwrite && p in disk
       case Done(t, Skipped) => Same(job, disk, p) && job.skipErrors
       case Failed(_, _, _) => Same(job, disk, p)
  }

  /** Destinations of tasks not yet handed out, or still in extractOne, are as they were. */
  ghost predicate OpenOk(job: Job, disk: map<string, string>, next: nat, workers: seq<Worker>)
  {
    && (forall t | next <= t < |job.tasks| :: Same(job, disk, job.tasks[t].path))
    && (forall w | 0 <= w < |workers| && Holds(workers[w]) && !workers[w].Ready? ::
          TaskOf(workers[w]) < |job.tasks| && Same(job, disk, job.tasks[TaskOf(workers[w])].path))
  }

  ghost predicate ResultsOk(job: Job, disk: map<string, string>, workers: seq<Worker>, results: seq<Result>)
  {
    && (forall w | 0 <= w < |workers| && workers[w].Ready? :: DoneOk(job, disk, workers[w].result))
    && (forall i | 0 <= i < |results| :: DoneOk(job, disk, results[i]))
  }

  ghost predicate DistinctPaths(job: Job)
  {
    forall i, j | 0 <= i < j < |job.tasks| :: job.tasks[i].path != job.tasks[j].path
  }

  ghost predicate Inv(st: State)
  {
    && DistinctPaths(st.job) && TasksOk(st)
    && CancelOk(st.workers, st.results, st.workerDone, st.parentDone)
    && GatherOk(st.results, st.gathered, st.firstErr, st.done)
    && DiskOk(st.job, st.disk) && WorkersOk(st.job, st.workers)
    && ResultsOk(st.job, st.disk, st.workers, st.results)
    && OpenOk(st.job, st.disk, st.next, st.workers)
  }

  function Bit(b: bool): nat { if b then 0 else 1 }

  // ---- Tasks stay in one place ----

  lemma TargetHolds(st: State, step: Step)
    requires Enabled(st, step) && OfWorker(step) && !step.Take? && !step.Exit? && !step.Post?
    ensures Holds(st.workers[step.w]) && Holds(Target(st, step))
    ensures TaskOf(Target(st, step)) == TaskOf(st.workers[step.w])
  {
  }

  lemma PlaceMoved(next: nat, workers: seq<Worker>, results: seq<Result>, w: nat, x: Worker)
    requires OnePlaceEach(next, workers, results) && w < |workers|
    requires Holds(x) == Holds(workers[w]) && (Holds(x) ==> TaskOf(x) == TaskOf(workers[w]))
    ensures OnePlaceEach(next, workers[w := x], results)
  {
    SumMove(workers, One, w, x);
  }

  lemma PlaceTaken(next: nat, workers: seq<Worker>, results: seq<Result>, w: nat)
    requires OnePlaceEach(next, workers, results) && w < |workers| && workers[w].Idle?
    ensures OnePlaceEach(next + 1, workers[w := Taken(next)], results)
  {
    SumMove(workers, One, w, Taken(next));
  }

  lemma PlacePosted(next: nat, workers: seq<Worker>, results: seq<Result>, w: nat)
    requires OnePlaceEach(next, workers, results) && w < |workers| && workers[w].Ready?
    ensures OnePlaceEach(next, workers[w := Idle], results + [workers[w].result])
  {
    var r := workers[w].result;
    SumMove(workers, One, w, Idle);
    forall t: nat ensures Answered(results + [r], t) <==> Answered(results, t) || t == r.task {
      if Answered(results, t) {
        var i :| 0 <= i < |results| && results[i].task == t;
        assert (results + [r])[i].task == t;
      }
      assert (results + [r])[|results|] == r;
    }
    forall i | 0 <= i < |results| ensures results[i].task != r.task {
      assert Answered(results, results[i].task) && TaskOf(workers[w]) == r.task;
    }
  }

  lemma PlacesAfter(st: State, step: Step)
    requires OnePlaceEach(st.next, st.workers, st.results) && Enabled(st, step) && OfWorker(step)
    ensures OnePlaceEach(NextAfter(st, step), st.workers[step.w := Target(st, step)], Posted(st, step))
  {
    if step.Take? {
      PlaceTaken(st.next, st.workers, st.results, step.w);
    } else if step.Post? {
      PlacePosted(st.next, st.workers, st.results, step.w);
    } else {
      if !step.Exit? {
        TargetHolds(st, step);
      }
      PlaceMoved(st.next, st.workers, st.results, step.w, Target(st, step));
    }
  }

  lemma StepPlaces(st: State, step: Step, st': State)
    requires OnePlaceEach(st.next, st.workers, st.results) && Enabled(st, step) && st' == Apply(st, step)
    ensures OnePlaceEach(st'.next, st'.workers, st'.results)
  {
    if OfWorker(step) {
      PlacesAfter(st, step);
    }
  }

  lemma StepFeed(st: State, step: Step)
    requires FeedOk(st) && Enabled(st, step)
    ensures FeedOk(Apply(st, step))
  {
    if OfWorker(step) {
      assert Target(st, step).Exited? <==> step.Exit?;
    }
  }

  // ---- Cancellation ----

  lemma RootKept(workers: seq<Worker>, results: seq<Result>, w: nat, x: Worker)
    requires RootRecorded(workers, results) && w < |workers|
    requires workers[w].Ready? && RootCause(workers[w].result) ==> x == workers[w]
    ensures RootRecorded(workers[w := x], results)
  {
    if v :| 0 <= v < |workers| && workers[v].Ready? && RootCause(workers[v].result) {
      assert workers[w := x][v] == workers[v];
    }
  }

  lemma CancelMoved(st: State, w: nat, x: Worker)
    requires CancelOk(st.workers, st.results, st.workerDone, st.parentDone) && At(st, w)
    requires Echo(x) ==> st.workerDone
    requires !st.workers[w].Ready?
    ensures CancelOk(st.workers[w := x], st.results, st.workerDone, st.parentDone)
  {
    if st.workerDone && !st.parentDone {
      RootKept(st.workers, st.results, w, x);
    }
  }

  lemma CancelPosted(st: State, w: nat)
    requires CancelOk(st.workers, st.results, st.workerDone, st.parentDone) && At(st, w) && st.workers[w].Ready?
    ensures CancelOk(st.workers[w := Idle], st.results + [st.workers[w].result], st.workerDone, st.parentDone)
  {
    var r := st.workers[w].result;
    var results := st.results + [r];
    assert results[|st.results|] == r;
    if st.workerDone && !st.parentDone {
      if v :| 0 <= v < |st.workers| && st.workers[v].Ready? && RootCause(st.workers[v].result) {
        if v != w {
          assert st.workers[w := Idle][v] == st.workers[v];
        }
      } else {
        var i :| 0 <= i < |st.results| && RootCause(st.results[i]);
        assert results[i] == st.results[i];
      }
      assert RootRecorded(st.workers[w := Idle], results);
    }
  }

  /** The first to cancel evaluated its flag while the pool was live, so it records a root cause. */
  lemma CancelRecorded(st: State, w: nat)
    requires CancelOk(st.workers, st.results, st.workerDone, st.parentDone) && At(st, w) && st.workers[w].Flagged?
    ensures CancelOk(st.workers[w := Target(st, Cancel(w))], st.results, true, st.parentDone)
  {
    var x := Target(st, Cancel(w));
    if st.workerDone {
      CancelMoved(st, w, x);
    } else {
      assert !Echo(st.workers[w]);
      assert st.workers[w := x][w] == x && RootCause(x.result);
    }
  }

  lemma StepCancel(st: State, step: Step)
    requires CancelOk(st.workers, st.results, st.workerDone, st.parentDone) && Enabled(st, step)
    ensures var st' := Apply(st, step); CancelOk(st'.workers, st'.results, st'.workerDone, st'.parentDone)
  {
    if OfWorker(step) {
      if step.Post? {
        CancelPosted(st, step.w);
      } else if step.Cancel? {
        CancelRecorded(st, step.w);
      } else {
        CancelMoved(st, step.w, Target(st, step));
      }
    }
  }

  // ---- The drain loop ----

  lemma GatheredOne(results: seq<Result>, gathered: nat, firstErr: Option<Result>, done: nat)
    requires GatherOk(results, gathered, firstErr, done) && gathered < |results|
    ensures var r := results[gathered];
            GatherOk(results, gathered + 1, if firstErr.None? && RootCause(r) then Some(r) else firstErr,
                     if r.Done? then done + 1 else done)
  {
    if firstErr.None? && RootCause(results[gathered]) {
      assert FirstRoot(results, results[gathered]);
    }
  }

  lemma FirstRootStays(results: seq<Result>, more: Result, r: Result)
    requires FirstRoot(results, r)
    ensures FirstRoot(results + [more], r)
  {
    var i :| 0 <= i < |results| && results[i] == r && forall j | 0 <= j < i :: !RootCause(results[j]);
    assert (results + [more])[i] == r && forall j | 0 <= j < i :: (results + [more])[j] == results[j];
  }

  lemma GatherPosted(results: seq<Result>, r: Result, gathered: nat, firstErr: Option<Result>, done: nat)
    requires GatherOk(results, gathered, firstErr, done)
    ensures GatherOk(results + [r], gathered, firstErr, done)
  {
    assert forall i | 0 <= i < gathered :: (results + [r])[i] == results[i];
    if firstErr.Some? {
      FirstRootStays(results, r, firstErr.value);
    }
  }

  lemma StepGather(st: State, step: Step, st': State)
    requires GatherOk(st.results, st.gathered, st.firstErr, st.done) && Enabled(st, step) && st' == Apply(st, step)
    ensures GatherOk(st'.results, st'.gathered, st'.firstErr, st'.done)
  {
    if step.Gather? {
      GatheredOne(st.results, st.gathered, st.firstErr, st.done);
    } else if step.Post? {
      GatherPosted(st.results, st.workers[step.w].result, st.gathered, st.firstErr, st.done);
    }
  }

  // ---- The destinations ----

  lemma RenameKeepsDisk(job: Job, disk: map<string, string>, t: nat, bytes: string)
    requires DiskOk(job, disk) && Vouched(job, t, bytes)
    ensures DiskOk(job, disk[job.tasks[t].path := bytes])
  {
    var path := job.tasks[t].path;
    var disk' := disk[path := bytes];
    forall p | p in disk' ensures Untouched(job, disk', p) || Restores(job, disk', p) {
      if p != path {
        assert Untouched(job, disk, p) || Restores(job, disk, p);
      }
    }
  }

  lemma StepDisk(st: State, step: Step)
    requires DiskOk(st.job, st.disk) && WorkersOk(st.job, st.workers) && Enabled(st, step)
    ensures DiskOk(Apply(st, step).job, Apply(st, step).disk)
  {
    if step.Rename? {
      assert WorkerOk(st.job, st.workers[step.w]);
      RenameKeepsDisk(st.job, st.disk, st.workers[step.w].task, st.workers[step.w].bytes);
    }
  }

  lemma StepWorkers(st: State, step: Step)
    requires WorkersOk(st.job, st.workers) && Enabled(st, step)
    ensures WorkersOk(Apply(st, step).job, Apply(st, step).workers)
  {
    if OfWorker(step) {
      assert WorkerOk(st.job, st.workers[step.w]);
      assert WorkerOk(st.job, Target(st, step));
    }
  }

  // ---- Results ----

  lemma ResultsMoved(job: Job, disk: map<string, string>, workers: seq<Worker>, results: seq<Result>, w: nat, x: Worker)
    requires ResultsOk(job, disk, workers, results) && w < |workers| && (x.Ready? ==> DoneOk(job, disk, x.result))
    ensures ResultsOk(job, disk, workers[w := x], results)
  {
  }

  /** A rename touches no other task's destination. */
  lemma RenameKeepsResult(job: Job, disk: map<string, string>, t: nat, bytes: string, r: Result)
    requires DistinctPaths(job) && t < |job.tasks| && DoneOk(job, disk, r) && r.task != t
    ensures DoneOk(job, disk[job.tasks[t].path := bytes], r)
  {
    assert job.tasks[r.task].path != job.tasks[t].path;
  }

  lemma ResultsRenamed(st: State, w: nat)
    requires Inv(st) && Enabled(st, Rename(w))
    ensures ResultsOk(st.job, DiskAfter(st, Rename(w)), st.workers[w := Target(st, Rename(w))], st.results)
  {
    var t, bytes, disk := st.workers[w].task, st.workers[w].bytes, DiskAfter(st, Rename(w));
    var workers := st.workers[w := Target(st, Rename(w))];
    assert WorkerOk(st.job, st.workers[w]);
    forall i | 0 <= i < |st.results| ensures DoneOk(st.job, disk, st.results[i]) {
      assert Answered(st.results, st.results[i].task) && TaskOf(st.workers[w]) == t;
      RenameKeepsResult(st.job, st.disk, t, bytes, st.results[i]);
    }
    forall v | 0 <= v < |st.workers| && workers[v].Ready? ensures DoneOk(st.job, disk, workers[v].result) {
      if v != w {
        assert TaskOf(st.workers[v]) != TaskOf(st.workers[w]);
        RenameKeepsResult(st.job, st.disk, t, bytes, st.workers[v].result);
      }
    }
  }

  lemma TargetOk(st: State, step: Step)
    requires Inv(st) && Enabled(st, step)
    requires OfWorker(step) && !step.Rename? && !step.Take? && !step.Exit? && !step.Post?
    ensures Target(st, step).Ready? ==> DoneOk(st.job, st.disk, Target(st, step).result)
  {
    TargetHolds(st, step);
    assert TaskOf(st.workers[step.w]) < |st.job.tasks|;
  }

  lemma ResultsTarget(st: State, step: Step)
    requires Inv(st) && Enabled(st, step) && OfWorker(step) && !step.Rename?
    ensures ResultsOk(st.job, st.disk, st.workers[step.w := Target(st, step)], Posted(st, step))
  {
    if !step.Take? && !step.Exit? && !step.Post? {
      TargetOk(st, step);
    }
    ResultsMoved(st.job, st.disk, st.workers, st.results, step.w, Target(st, step));
  }

  lemma ResultsAfter(st: State, step: Step)
    requires Inv(st) && Enabled(st, step) && OfWorker(step)
    ensures ResultsOk(st.job, DiskAfter(st, step), st.workers[step.w := Target(st, step)], Posted(st, step))
  {
    if step.Rename? {
      ResultsRenamed(st, step.w);
    } else {
      ResultsTarget(st, step);
    }
  }

  lemma StepResults(st: State, step: Step)
    requires Enabled(st, step) && ResultsOk(st.job, st.disk, st.workers, st.results)
    requires OfWorker(step) ==>
               ResultsOk(st.job, DiskAfter(st, step), st.workers[step.w := Target(st, step)], Posted(st, step))
    ensures ResultsOk(Apply(st, step).job, Apply(st, step).disk, Apply(st, step).workers, Apply(st, step).results)
  {
  }

  lemma OpenMoved(job: Job, disk: map<string, string>, next: nat, workers: seq<Worker>, w: nat, x: Worker)
    requires OpenOk(job, disk, next, workers) && w < |workers|
    requires Holds(x) && !x.Ready? ==> TaskOf(x) < |job.tasks| && Same(job, disk, job.tasks[TaskOf(x)].path)
    ensures OpenOk(job, disk, next, workers[w := x])
  {
  }

  lemma OpenRenamed(st: State, w: nat)
    requires Inv(st) && Enabled(st, Rename(w))
    ensures OpenOk(st.job, DiskAfter(st, Rename(w)), st.next, st.workers[w := Target(st, Rename(w))])
  {
    var t, disk := st.workers[w].task, DiskAfter(st, Rename(w));
    assert TaskOf(st.workers[w]) == t < st.next;
    forall u | st.next <= u < |st.job.tasks| ensures Same(st.job, disk, st.job.tasks[u].path) {
      assert st.job.tasks[u].path != st.job.tasks[t].path;
    }
    forall v | 0 <= v < |st.workers| && v != w && Holds(st.workers[v]) && !st.workers[v].Ready?
      ensures Same(st.job, disk, st.job.tasks[TaskOf(st.workers[v])].path)
    {
      assert TaskOf(st.workers[v]) != t;
      assert st.job.tasks[TaskOf(st.workers[v])].path != st.job.tasks[t].path;
    }
  }

  lemma OpenTarget(st: State, step: Step)
    requires Inv(st) && Enabled(st, step) && OfWorker(step) && !step.Rename?
    ensures OpenOk(st.job, st.disk, NextAfter(st, step), st.workers[step.w := Target(st, step)])
  {
    if !step.Take? && !step.Exit? && !step.Post? {
      TargetHolds(st, step);
    }
    OpenMoved(st.job, st.disk, st.next, st.workers, step.w, Target(st, step));
  }

  lemma OpenAfter(st: State, step: Step)
    requires Inv(st) && Enabled(st, step) && OfWorker(step)
    ensures OpenOk(st.job, DiskAfter(st, step), NextAfter(st, step), st.workers[step.w := Target(st, step)])
  {
    if step.Rename? {
      OpenRenamed(st, step.w);
    } else {
      OpenTarget(st, step);
    }
  }

  lemma StepOpen(st: State, step: Step)
    requires Enabled(st, step) && OpenOk(st.job, st.disk, st.next, st.workers)
    requires OfWorker(step) ==>
               OpenOk(st.job, DiskAfter(st, step), NextAfter(st, step), st.workers[step.w := Target(st, step)])
    ensures OpenOk(Apply(st, step).job, Apply(st, step).disk, Apply(st, step).next, Apply(st, step).workers)
  {
  }

  lemma StepInv(st: State, step: Step)
    requires Inv(st) && Enabled(st, step)
    ensures Inv(Apply(st, step))
  {
    StepPlaces(st, step, Apply(st, step));
    StepFeed(st, step);
    StepCancel(st, step);
    StepGather(st, step, Apply(st, step));
    StepDisk(st, step);
    StepWorkers(st, step);
    if OfWorker(step) {
      ResultsAfter(st, step);
      OpenAfter(st, step);
    }
    StepResults(st, step);
    StepOpen(st, step);
    JobStays(st, step);
  }

  lemma JobStays(st: State, step: Step)
    requires Enabled(st, step)
    ensures Apply(st, step).job == st.job && |Apply(st, step).workers| == |st.workers|
  {
  }

  lemma InitInv(job: Job, n: nat)
    requires DistinctPaths(job)
    ensures Inv(Init(job, n))
  {
    SumConstant(Init(job, n).workers, One, 0);
  }

  // ---- No reachable state is stuck, and every run ends ----

  lemma NotStuck(st: State) returns (step: Step)
    requires Inv(st) && !Final(st)
    ensures Enabled(st, step) && !step.ParentCancel?
  {
    if forall w | 0 <= w < |st.workers| :: st.workers[w].Exited? {
      step := Gather;
    } else if st.fed < |st.job.tasks| {
      step := Feed;
    } else if !st.closed {
      step := CloseFeed;
    } else {
      var w :| 0 <= w < |st.workers| && !st.workers[w].Exited?;
      assert WorkerOk(st.job, st.workers[w]);
      assert Holds(st.workers[w]) ==> TaskOf(st.workers[w]) < |st.job.tasks|;
      match st.workers[w]
      case Idle => step := if st.next < st.fed then Take(w) else Exit(w);
      case Taken(_) => step := Check(w);
      case Looking(_) => step := Look(w, true);
      case Fetching(_) => step := Break(w, Other);
      case Decoded(_, _, _) => step := Verify(w);
      case Checked(_, _) => step := Rename(w);
      case Failing(_, _) => step := Settle(w);
      case Flagged(_, _, _) => step := Cancel(w);
      case Ready(_) => step := Post(w);
    }
  }

  function Weight(x: Worker): nat
  {
    match x
    case Taken(_) => 10
    case Looking(_) => 9
    case Fetching(_) => 8
    case Decoded(_, _, _) => 7
    case Checked(_, _) => 6
    case Failing(_, _) => 5
    case Flagged(_, _, _) => 4
    case Ready(_) => 3
    case Idle => 1
    case Exited => 0
  }

  /** What is left to do, in steps. */
  function Remaining(st: State): int
  {
    11 * (|st.job.tasks| - st.next) + Sum(st.workers, Weight) + Outstanding(st)
  }

  function Outstanding(st: State): int
  {
    (|st.job.tasks| - st.fed) + (|st.results| - st.gathered) + Bit(st.closed) + Bit(st.parentDone) + Bit(st.workerDone)
  }

  lemma WeightDrops(st: State, step: Step)
    requires Enabled(st, step) && OfWorker(step)
    ensures Weight(Target(st, step)) + (if step.Post? then 1 else 0) < Weight(st.workers[step.w])
              + (if step.Take? then 10 else 0)
  {
  }

  lemma RemainingDrops(st: State, step: Step)
    requires Enabled(st, step)
    ensures Remaining(Apply(st, step)) < Remaining(st)
  {
    if OfWorker(step) {
      WorkerDrops(st, step, Apply(st, step));
    } else {
      OutsideDrops(st, step, ApplyOutside(st, step));
    }
  }

  lemma OutsideDrops(st: State, step: Step, st': State)
    requires Enabled(st, step) && !OfWorker(step) && st' == ApplyOutside(st, step)
    ensures st'.workers == st.workers && st'.job == st.job && st'.next == st.next
    ensures Outstanding(st') < Outstanding(st)
  {
    if step.Gather? {
      assert st'.gathered == st.gathered + 1;
    } else if step.Feed? {
      assert st'.fed == st.fed + 1;
    }
  }

  lemma WorkerDrops(st: State, step: Step, st': State)
    requires Enabled(st, step) && OfWorker(step) && st' == Apply(st, step)
    ensures Remaining(st') < Remaining(st)
  {
    SumMove(st.workers, Weight, step.w, Target(st, step));
    WeightDrops(st, step);
  }

  ghost predicate IsRun(run: seq<State>, steps: seq<Step>)
  {
    && |run| == |steps| + 1
    && forall i {:trigger steps[i]} | 0 <= i < |steps| ::
         Enabled(run[i], steps[i]) && run[i + 1] == Apply(run[i], steps[i])
  }

  /** State st comes i steps after `first`. */
  ghost predicate Reached(first: State, st: State, i: nat)
  {
    && Inv(st) && st.job == first.job && |st.workers| == |first.workers|
    && 0 <= Remaining(st) && i + Remaining(st) <= Remaining(first)
  }

  lemma ReachedFirst(job: Job, n: nat)
    requires DistinctPaths(job)
    ensures Reached(Init(job, n), Init(job, n), 0)
  {
    InitInv(job, n);
  }

  lemma OneStep(first: State, st: State, i: nat, step: Step, st': State)
    requires Reached(first, st, i) && Enabled(st, step) && st' == Apply(st, step)
    ensures Reached(first, st', i + 1)
  {
    StepInv(st, step);
    JobStays(st, step);
    RemainingDrops(st, step);
  }

  lemma RunStep(run: seq<State>, steps: seq<Step>, i: nat)
    requires IsRun(run, steps) && 0 < i < |run| && Reached(run[0], run[i - 1], i - 1)
    ensures Reached(run[0], run[i], i)
  {
    var first, st, next := run[0], run[i - 1], run[i];
    assert Enabled(st, steps[i - 1]) && next == Apply(st, steps[i - 1]);
    OneStep(first, st, i - 1, steps[i - 1], next);
  }

  lemma {:induction false} RunInv(run: seq<State>, steps: seq<Step>, i: nat)
    requires IsRun(run, steps) && Reached(run[0], run[0], 0) && i < |run|
    ensures Reached(run[0], run[i], i)
  {
    if i > 0 {
      RunInv(run, steps, i - 1);
      RunStep(run, steps, i);
    }
  }

  /** With n workers at most 12 * tasks + n + 3 steps are possible, in any order; and where no step is
      possible any more, every worker has exited and every result is drained. */
  lemma RunsEnd(job: Job, n: nat, run: seq<State>, steps: seq<Step>)
    requires DistinctPaths(job) && IsRun(run, steps) && run[0] == Init(job, n)
    ensures |steps| <= 12 * |job.tasks| + n + 3
    ensures (forall step :: Enabled(run[|steps|], step) ==> step.ParentCancel?) ==> Final(run[|steps|])
  {
    ReachedFirst(job, n);
    SumConstant(Init(job, n).workers, Weight, 1);
    RunInv(run, steps, |steps|);
    if !Final(run[|steps|]) {
      var step := NotStuck(run[|steps|]);
    }
  }

  // ---- What the return value means ----

  lemma FinalCounts(st: State)
    requires Inv(st) && Final(st) && st.workers != []
    ensures st.next == |st.job.tasks| == |st.results|
  {
    SumConstant(st.workers, One, 0);
    assert st.workers[0].Exited?;
  }

  /** Every task has exactly one result. */
  lemma EveryTaskAnswered(st: State, t: nat) returns (i: nat)
    requires Inv(st) && Final(st) && st.workers != [] && t < |st.job.tasks|
    ensures i < |st.results| && st.results[i].task == t
    ensures forall j | 0 <= j < |st.results| && st.results[j].task == t :: j == i
  {
    FinalCounts(st);
    var ids := seq(|st.results|, j requires 0 <= j < |st.results| => st.results[j].task);
    i := AllBelow(ids, |st.job.tasks|, t);
  }

  /** While the caller's context is live, some failure leaves a result that is not marked cancelled, and
      restoreToDir returns such a result's error: never success, and never a sibling's echo. */
  lemma FailureIsReported(st: State)
    requires Inv(st) && Final(st) && st.workers != [] && !st.parentDone
    ensures (exists i :: 0 <= i < |st.results| && st.results[i].Failed?) <==>
            (exists i :: 0 <= i < |st.results| && RootCause(st.results[i]))
    ensures (exists i :: 0 <= i < |st.results| && st.results[i].Failed?) ==>
              Returned(st).FirstError? && FirstRoot(st.results, Returned(st).result)
  {
    if i :| 0 <= i < |st.results| && st.results[i].Failed? {
      if Marked(st.results[i]) {
        assert RootRecorded(st.workers, st.results);
        var j :| 0 <= j < |st.results| && RootCause(st.results[j]);
      } else {
        assert RootCause(st.results[i]);
      }
    }
  }

  /** Success, exactly: the caller did not cancel and no result is a failure. */
  lemma AllDoneIff(st: State)
    requires Inv(st) && Final(st) && st.workers != []
    ensures Returned(st).AllDone? <==> !st.parentDone && forall i | 0 <= i < |st.results| :: st.results[i].Done?
  {
    FinalCounts(st);
    if !st.parentDone {
      FailureIsReported(st);
      if forall i | 0 <= i < |st.results| :: st.results[i].Done? {
        assert st.done == st.gathered == |st.job.tasks|;
      }
    }
  }

  /** At every point of every run each destination is untouched or holds content that a record vouches for. */
  lemma DestinationsAlwaysSound(job: Job, n: nat, run: seq<State>, steps: seq<Step>, i: nat, p: string)
    requires DistinctPaths(job) && IsRun(run, steps) && run[0] == Init(job, n) && i < |run|
    ensures p in job.before ==> p in run[i].disk
    ensures p in run[i].disk ==> Untouched(job, run[i].disk, p) || Restores(job, run[i].disk, p)
  {
    ReachedFirst(job, n);
    RunInv(run, steps, i);
  }

  // ---- The same, said of runs ----

  ghost predicate IsPoolRun(job: Job, n: nat, run: seq<State>, steps: seq<Step>)
  {
    DistinctPaths(job) && n >= 1 && IsRun(run, steps) && run[0] == Init(job, n)
  }

  /** A finished run returns success exactly when the caller did not cancel and no task failed; while the
      caller is live, a failure makes it return a root cause, not an echo of the cancellation. */
  lemma RunReturns(job: Job, n: nat, run: seq<State>, steps: seq<Step>)
    requires IsPoolRun(job, n, run, steps) && Final(run[|steps|])
    ensures var st := run[|steps|];
            && (Returned(st).AllDone? <==> !st.parentDone && forall i | 0 <= i < |st.results| :: st.results[i].Done?)
            && (!st.parentDone && (exists i :: 0 <= i < |st.results| && st.results[i].Failed?) ==>
                  Returned(st).FirstError? && FirstRoot(st.results, Returned(st).result))
  {
    ReachedFirst(job, n);
    RunInv(run, steps, |steps|);
    AllDoneIff(run[|steps|]);
    if !run[|steps|].parentDone {
      FailureIsReported(run[|steps|]);
    }
  }

  /** Whatever a run returns, every task has one result, and it tells what became of the destination:
      only a restored one has changed, and then to content that its record vouches for. */
  lemma RunAccounts(job: Job, n: nat, run: seq<State>, steps: seq<Step>, t: nat) returns (i: nat)
    requires IsPoolRun(job, n, run, steps) && Final(run[|steps|]) && t < |job.tasks|
    ensures var st := run[|steps|];
            var p := job.tasks[t].path;
            && i < |st.results| && st.results[i].task == t
            && (forall j | 0 <= j < |st.results| && st.results[j].task == t :: j == i)
            && match st.results[i]
               case Done(_, Restored) => p in st.disk && Vouched(job, t, st.disk[p])
               case Done(_, Identical) => Same(job, st.disk, p) && p in st.disk && Vouched(job, t, st.disk[p])
               case Done(_, Kept) => Same(job, st.disk, p) && job.noOverwrite && p in st.disk
               case Done(_, Skipped) => Same(job, st.disk, p) && job.skipErrors
               case Failed(_, _, _) => Same(job, st.disk, p)
  {
    ReachedFirst(job, n);
    RunInv(run, steps, |steps|);
    i := EveryTaskAnswered(run[|steps|], t);
    assert DoneOk(job, run[|steps|].disk, run[|steps|].results[i]);
  }
}
