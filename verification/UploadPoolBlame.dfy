/** Root causes of the upload pool: an error that names an entry is that entry's own failure, wherever
    it has travelled (tsync/backup.go: process, uploadOnce, the gather loop, runError). */
module UploadPoolBlame {
  import opened Base
  import opened Keys
  import opened Metadata
  import opened UploadPool

  /** The worker is failing, or has failed, with entry u's own error. */
  predicate Carries(x: Worker, u: nat)
  {
    x == Failing(u, TaskFailed(u)) || x == Ready(Failed(u, TaskFailed(u)))
  }

  /** Entry u itself failed, and its result is on the way or already there. */
  ghost predicate Origin(workers: seq<Worker>, results: seq<Result>, u: nat)
  {
    || (exists w :: 0 <= w < |workers| && Carries(workers[w], u))
    || (exists i :: 0 <= i < |results| && results[i] == Failed(u, TaskFailed(u)))
  }

  ghost predicate Blamed(workers: seq<Worker>, results: seq<Result>, err: Err)
  {
    match err case TaskFailed(u) => Origin(workers, results, u) case Stopped => true
  }

  ghost predicate WorkersBlamed(workers: seq<Worker>, results: seq<Result>)
  {
    && (forall w | 0 <= w < |workers| && workers[w].Failing? :: Blamed(workers, results, workers[w].err))
    && (forall w | 0 <= w < |workers| && workers[w].Ready? && workers[w].result.Failed? ::
          Blamed(workers, results, workers[w].result.err))
  }

  ghost predicate ResultsBlamed(workers: seq<Worker>, results: seq<Result>)
  {
    forall i | 0 <= i < |results| && results[i].Failed? :: Blamed(workers, results, results[i].err)
  }

  ghost predicate FlightsBlamed(workers: seq<Worker>, results: seq<Result>, flights: map<Key, Flight>)
  {
    forall k | k in flights && flights[k].Crashed? :: Blamed(workers, results, flights[k].err)
  }

  ghost predicate CausesBlamed(workers: seq<Worker>, results: seq<Result>, cause: Option<Err>, firstErr: Option<Err>)
  {
    && (cause.Some? ==> Blamed(workers, results, cause.value))
    && (firstErr.Some? ==> Blamed(workers, results, firstErr.value))
  }

  ghost predicate BlameOk(st: State)
  {
    && WorkersBlamed(st.workers, st.results) && ResultsBlamed(st.workers, st.results)
    && FlightsBlamed(st.workers, st.results, st.flights)
    && CausesBlamed(st.workers, st.results, st.cause, st.firstErr)
  }

  // ---- Every step keeps it ----

  /** The results a step leaves, and the worker it leaves at w. */
  ghost predicate Moves(workers: seq<Worker>, results: seq<Result>, w: nat, x: Worker, after: seq<Result>)
  {
    && w < |workers|
    && (after == results || (workers[w].Ready? && after == results + [workers[w].result]))
    && forall u | Carries(workers[w], u) ::
         Carries(x, u) || (workers[w].Ready? && after == results + [workers[w].result])
  }

  lemma OriginStays(workers: seq<Worker>, results: seq<Result>, w: nat, x: Worker, after: seq<Result>, u: nat)
    requires Moves(workers, results, w, x, after) && Origin(workers, results, u)
    ensures Origin(workers[w := x], after, u)
  {
    if v :| 0 <= v < |workers| && Carries(workers[v], u) {
      if v != w || Carries(x, u) {
        assert workers[w := x][v] == if v == w then x else workers[v];
      } else {
        assert after[|results|] == Failed(u, TaskFailed(u));
      }
    } else {
      var i :| 0 <= i < |results| && results[i] == Failed(u, TaskFailed(u));
      assert after[i] == results[i];
    }
  }

  lemma BlameStays(workers: seq<Worker>, results: seq<Result>, w: nat, x: Worker, after: seq<Result>, err: Err)
    requires Moves(workers, results, w, x, after) && Blamed(workers, results, err)
    ensures Blamed(workers[w := x], after, err)
  {
    if err.TaskFailed? {
      OriginStays(workers, results, w, x, after, err.task);
    }
  }

  lemma WorkersStay(st: State, w: nat, x: Worker, after: seq<Result>)
    requires BlameOk(st) && Moves(st.workers, st.results, w, x, after)
    requires x.Failing? ==> Blamed(st.workers[w := x], after, x.err)
    requires x.Ready? && x.result.Failed? ==> Blamed(st.workers[w := x], after, x.result.err)
    ensures WorkersBlamed(st.workers[w := x], after) && ResultsBlamed(st.workers[w := x], after)
  {
    var workers := st.workers[w := x];
    forall v | 0 <= v < |workers| && workers[v].Failing? ensures Blamed(workers, after, workers[v].err) {
      if v != w { BlameStays(st.workers, st.results, w, x, after, st.workers[v].err); }
    }
    forall v | 0 <= v < |workers| && workers[v].Ready? && workers[v].result.Failed?
      ensures Blamed(workers, after, workers[v].result.err)
    {
      if v != w { BlameStays(st.workers, st.results, w, x, after, st.workers[v].result.err); }
    }
    forall i | 0 <= i < |after| && after[i].Failed? ensures Blamed(workers, after, after[i].err) {
      BlameStays(st.workers, st.results, w, x, after, after[i].err);
    }
  }

  lemma SharedStay(st: State, w: nat, x: Worker, after: seq<Result>)
    requires BlameOk(st) && Moves(st.workers, st.results, w, x, after)
    ensures FlightsBlamed(st.workers[w := x], after, st.flights)
    ensures CausesBlamed(st.workers[w := x], after, st.cause, st.firstErr)
  {
    forall k | k in st.flights && st.flights[k].Crashed? ensures Blamed(st.workers[w := x], after, st.flights[k].err) {
      BlameStays(st.workers, st.results, w, x, after, st.flights[k].err);
    }
    if st.cause.Some? { BlameStays(st.workers, st.results, w, x, after, st.cause.value); }
    if st.firstErr.Some? { BlameStays(st.workers, st.results, w, x, after, st.firstErr.value); }
  }

  /** The steps after which worker w holds an error of its own making or one that was already blamed. */
  lemma ErrorIsBlamed(st: State, step: Step, x: Worker, after: seq<Result>)
    requires BlameOk(st) && Enabled(st, step) && !step.ParentCancel? && !step.Gather?
    requires x == Apply(st, step).workers[step.w] && after == Apply(st, step).results
    requires Moves(st.workers, st.results, step.w, x, after)
    ensures x.Failing? ==> Blamed(st.workers[step.w := x], after, x.err)
    ensures x.Ready? && x.result.Failed? ==> Blamed(st.workers[step.w := x], after, x.result.err)
  {
    var workers := st.workers[step.w := x];
    assert workers[step.w] == x;
    if step.Check? && st.cause.Some? {
      BlameStays(st.workers, st.results, step.w, x, after, st.cause.value);
    } else if step.GiveUp? {
      BlameStays(st.workers, st.results, step.w, x, after, st.cause.value);
    } else if step.Wake? && st.flights[st.workers[step.w].key].Crashed? {
      BlameStays(st.workers, st.results, step.w, x, after, st.flights[st.workers[step.w].key].err);
    } else if step.Cancel? {
      BlameStays(st.workers, st.results, step.w, x, after, st.workers[step.w].err);
    } else if step.KeyFailed? || step.UploadFailed? {
      assert step.err.TaskFailed? ==> Carries(workers[step.w], step.err.task);
    }
  }

  lemma StepMoves(st: State, step: Step)
    requires Enabled(st, step) && !step.ParentCancel? && !step.Gather?
    ensures var st' := Apply(st, step);
            && st'.workers == st.workers[step.w := st'.workers[step.w]]
            && Moves(st.workers, st.results, step.w, st'.workers[step.w], st'.results)
            && st'.firstErr == st.firstErr
  {
  }

  /** What a worker's step adds to the shared state is the error that worker is left with. */
  lemma StepShares(st: State, step: Step)
    requires Enabled(st, step) && !step.ParentCancel? && !step.Gather?
    ensures var st' := Apply(st, step);
            var x := st'.workers[step.w];
            && (st'.cause == st.cause || (x.Ready? && x.result.Failed? && st'.cause == Some(x.result.err)))
            && (forall k | k in st'.flights && st'.flights[k].Crashed? ::
                  (k in st.flights && st.flights[k] == st'.flights[k]) || (x.Failing? && st'.flights[k].err == x.err))
  {
  }

  lemma WorkerStepBlame(st: State, step: Step, st': State)
    requires BlameOk(st) && Enabled(st, step) && !step.ParentCancel? && !step.Gather? && st' == Apply(st, step)
    ensures BlameOk(st')
  {
    var x, after := st'.workers[step.w], st'.results;
    StepMoves(st, step);
    StepShares(st, step);
    ErrorIsBlamed(st, step, x, after);
    WorkersStay(st, step.w, x, after);
    SharedStay(st, step.w, x, after);
  }

  lemma StepBlame(st: State, step: Step)
    requires BlameOk(st) && Enabled(st, step)
    ensures BlameOk(Apply(st, step))
  {
    if !step.ParentCancel? && !step.Gather? {
      WorkerStepBlame(st, step, Apply(st, step));
    }
  }

  lemma InitBlame(tasks: seq<Task>, existing: map<Key, FileRecord>, seal: Seal, n: nat)
    ensures BlameOk(Init(tasks, existing, seal, n))
  {
  }

  /** Once every worker has exited, the cause of the run is the result of the entry it names. */
  lemma CauseIsAResult(st: State)
    requires BlameOk(st) && Final(st) && RunError(st).Cause? && RunError(st).err.TaskFailed?
    ensures Failed(RunError(st).err.task, RunError(st).err) in st.results
  {
    var err := RunError(st).err;
    assert Blamed(st.workers, st.results, err);
    assert Origin(st.workers, st.results, err.task);
  }
}
