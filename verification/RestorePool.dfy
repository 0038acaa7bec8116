/** The worker pool of restoreToDir (tsync/restore.go): the feed, the workers with extractOne's commit
    order, the cancellation flags, and the loop that drains the results. */
module RestorePool {
  import opened Base
  import opened Keys
  import opened Metadata

  datatype Task = Task(path: string, key: Key)

  /** What the pool works on. `crc` is CRC-32 of a content, `before` the directory at the start. */
  datatype Job = Job(tasks: seq<Task>, files: map<Key, FileRecord>, crc: string -> uint32,
                     noOverwrite: bool, skipErrors: bool, before: map<string, string>)

  /** Canceled wraps context.Canceled; Skippable is what SkipDecryptionErrors may skip. */
  datatype Err = Canceled | Skippable | Other

  datatype How = Restored | Identical | Kept | Skipped

  datatype Result = Done(task: nat, how: How) | Failed(task: nat, err: Err, cancelled: bool)

  datatype Worker =
    | Idle                                               // about to receive from taskChan
    | Taken(task: nat)                                   // about to check workerCtx
    | Looking(task: nat)                                 // extractOne: record and destination
    | Fetching(task: nat)                                // streaming the part into a temp file
    | Decoded(task: nat, compressed: nat, bytes: string) // about to compare with the record
    | Checked(task: nat, bytes: string)                  // verified and synced; about to rename
    | Failing(task: nat, err: Err)                       // extractOne has returned an error
    | Flagged(task: nat, err: Err, cancelled: bool)      // about to cancel the siblings
    | Ready(result: Result)                              // about to send the result
    | Exited

  datatype State = State(
    job: Job, disk: map<string, string>,
    fed: nat, closed: bool, next: nat, workers: seq<Worker>,
    workerDone: bool, parentDone: bool,
    results: seq<Result>, gathered: nat, firstErr: Option<Result>, done: nat)

  datatype Step =
    | Feed | CloseFeed
    | Take(w: nat) | Exit(w: nat) | Check(w: nat)
    | Look(w: nat, readable: bool) | Decode(w: nat, compressed: nat, bytes: string) | Verify(w: nat) | Rename(w: nat)
    | Break(w: nat, err: Err) | Settle(w: nat) | Cancel(w: nat) | Post(w: nat)
    | ParentCancel | Propagate | Gather

  function Init(job: Job, n: nat): State
  {
    State(job, job.before, 0, false, 0, seq(n, _ => Idle), false, false, [], 0, None, 0)
  }

  /** The content a record vouches for. */
  predicate Matches(job: Job, rec: FileRecord, bytes: string)
  {
    |bytes| == rec.size && job.crc(bytes) == rec.crc32
  }

  predicate At(st: State, w: nat) { w < |st.workers| }

  predicate Working(x: Worker) { x.Looking? || x.Fetching? || x.Decoded? || x.Checked? }

  predicate Enabled(st: State, step: Step)
  {
    match step
    case Feed => st.fed < |st.job.tasks|
    case CloseFeed => st.fed == |st.job.tasks| && !st.closed
    case Take(w) => At(st, w) && st.workers[w].Idle? && st.next < st.fed
    case Exit(w) => At(st, w) && st.workers[w].Idle? && st.next >= st.fed && st.closed
    case Check(w) => At(st, w) && st.workers[w].Taken?
    case Look(w, _) => At(st, w) && st.workers[w].Looking? && st.workers[w].task < |st.job.tasks|
    case Decode(w, _, _) => At(st, w) && st.workers[w].Fetching?
    case Verify(w) => At(st, w) && st.workers[w].Decoded? && st.workers[w].task < |st.job.tasks|
                      && st.job.tasks[st.workers[w].task].key in st.job.files
    case Rename(w) => At(st, w) && st.workers[w].Checked? && st.workers[w].task < |st.job.tasks|
    case Break(w, _) => At(st, w) && Working(st.workers[w])
    case Settle(w) => At(st, w) && st.workers[w].Failing?
    case Cancel(w) => At(st, w) && st.workers[w].Flagged?
    case Post(w) => At(st, w) && st.workers[w].Ready?
    case ParentCancel => !st.parentDone
    case Propagate => st.parentDone && !st.workerDone
    case Gather => st.gathered < |st.results|
  }

  /** The first part of extractOne: an existing destination may already do. */
  function Looked(job: Job, disk: map<string, string>, t: nat, readable: bool): Worker
    requires t < |job.tasks|
  {
    var task := job.tasks[t];
    if task.key !in job.files then Failing(t, Other)
    else if task.path in disk && job.noOverwrite then Ready(Done(t, Kept))
    else if task.path in disk && readable && Matches(job, job.files[task.key], disk[task.path])
    then Ready(Done(t, Identical))
    else Fetching(t)
  }

  /** The comparisons with the record between decoding and the rename. */
  function Compared(job: Job, t: nat, compressed: nat, bytes: string): Worker
    requires t < |job.tasks| && job.tasks[t].key in job.files
  {
    var rec := job.files[job.tasks[t].key];
    if compressed != rec.compressedSize || !Matches(job, rec, bytes) then Failing(t, Skippable) else Checked(t, bytes)
  }

  predicate OfWorker(step: Step)
  {
    !step.Feed? && !step.CloseFeed? && !step.ParentCancel? && !step.Propagate? && !step.Gather?
  }

  /** Where a step leaves its worker. */
  function Target(st: State, step: Step): Worker
    requires Enabled(st, step) && OfWorker(step)
  {
    var x := st.workers[step.w];
    match step
    case Take(_) => Taken(st.next)
    case Exit(_) => Exited
    case Check(_) => if st.workerDone then Ready(Failed(x.task, Canceled, true)) else Looking(x.task)
    case Look(_, readable) => Looked(st.job, st.disk, x.task, readable)
    case Decode(_, compressed, bytes) => Decoded(x.task, compressed, bytes)
    case Verify(_) => Compared(st.job, x.task, x.compressed, x.bytes)
    case Rename(_) => Ready(Done(x.task, Restored))
    case Break(_, err) => Failing(x.task, err)
    case Settle(_) => if st.job.skipErrors && x.err.Skippable? then Ready(Done(x.task, Skipped))
                      else Flagged(x.task, x.err, st.workerDone && x.err.Canceled?)
    case Cancel(_) => Ready(Failed(x.task, x.err, x.cancelled))
    case Post(_) => Idle
  }

  /** Feeding, cancellation from outside, and the drain loop. */
  function ApplyOutside(st: State, step: Step): State
    requires Enabled(st, step) && !OfWorker(step)
  {
    match step
    case Feed => st.(fed := st.fed + 1)
    case CloseFeed => st.(closed := true)
    case ParentCancel => st.(parentDone := true)
    case Propagate => st.(workerDone := true)
    case Gather =>
      var r := st.results[st.gathered];
      var st' := st.(gathered := st.gathered + 1);
      if r.Done? then st'.(done := st.done + 1)
      else if st.firstErr.None? && !r.cancelled then st'.(firstErr := Some(r))
      else st'
  }

  function Posted(st: State, step: Step): seq<Result>
    requires Enabled(st, step)
  {
    if step.Post? then st.results + [st.workers[step.w].result] else st.results
  }

  function NextAfter(st: State, step: Step): nat { if step.Take? then st.next + 1 else st.next }

  function DiskAfter(st: State, step: Step): map<string, string>
    requires Enabled(st, step)
  {
    if step.Rename? then st.disk[st.job.tasks[st.workers[step.w].task].path := st.workers[step.w].bytes] else st.disk
  }

  function Apply(st: State, step: Step): State
    requires Enabled(st, step)
  {
    if !OfWorker(step) then ApplyOutside(st, step)
    else State(st.job, DiskAfter(st, step),
               st.fed, st.closed, NextAfter(st, step), st.workers[step.w := Target(st, step)],
               st.workerDone || step.Cancel?, st.parentDone,
               Posted(st, step), st.gathered, st.firstErr, st.done)
  }

  predicate Final(st: State)
  {
    (forall w | 0 <= w < |st.workers| :: st.workers[w].Exited?) && st.gathered == |st.results|
  }

  datatype Outcome = AllDone | FirstError(result: Result) | Incomplete

  /** What restoreToDir returns once every worker has exited and every result is drained. */
  function Returned(st: State): Outcome
  {
    if st.parentDone then Incomplete
    else if st.firstErr.Some? then FirstError(st.firstErr.value)
    else if st.done != |st.job.tasks| then Incomplete
    else AllDone
  }
}
