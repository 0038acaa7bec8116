/** The worker pool of RunBackup (tsync/backup.go: process, processFile, uploadOnce, uploadPart,
    the gather loop, runError), as interleaved steps of any number of workers. */
module UploadPool {
  import opened Base
  import opened Keys
  import opened Metadata
  import opened Objects

  datatype Task = DirTask(path: string) | FileTask(path: string, crc32: uint32, size: int64, raw: bool)

  /** TaskFailed is an entry's own failure; Stopped is context.Canceled or a deadline. */
  datatype Err = TaskFailed(task: nat) | Stopped

  datatype Result = IsDir(task: nat) | Stored(task: nat, key: Key, record: FileRecord) | Failed(task: nat, err: Err)

  datatype Flight = Pending(owner: nat) | Landed(record: FileRecord) | Crashed(err: Err)

  /** The program point of a worker. */
  datatype Worker =
    | Idle                                             // about to receive from taskChan
    | Taken(task: nat)                                 // about to check the run context
    | Keying(task: nat)                                // computing the key
    | Keyed(task: nat, key: Key)                       // not in the loaded metadata; about to lock
    | Owning(task: nat, key: Key)                      // uploading the part
    | Written(task: nat, key: Key, record: FileRecord) // part committed, flight not yet closed
    | Waiting(task: nat, key: Key)                     // waiting for another worker's flight
    | Failing(task: nat, err: Err)                     // about to cancel the run
    | Ready(result: Result)                            // about to send its result
    | Exited

  datatype State = State(
    tasks: seq<Task>, existing: map<Key, FileRecord>, seal: Seal,
    next: nat, workers: seq<Worker>, flights: map<Key, Flight>, started: seq<Key>,
    cause: Option<Err>, parentDone: bool,
    results: seq<Result>, gathered: nat, firstErr: Option<Err>, done: nat)

  datatype Step =
    | Take(w: nat) | Exit(w: nat) | Check(w: nat)
    | KeyFound(w: nat, key: Key) | KeyFailed(w: nat, err: Err) | Lock(w: nat)
    | Commit(w: nat, record: FileRecord) | Land(w: nat) | UploadFailed(w: nat, err: Err, left: Option<Object>)
    | Wake(w: nat) | GiveUp(w: nat) | Cancel(w: nat) | Post(w: nat)
    | ParentCancel | Gather

  function Init(tasks: seq<Task>, existing: map<Key, FileRecord>, seal: Seal, n: nat): State
  {
    State(tasks, existing, seal, 0, seq(n, _ => Idle), map[], [], None, false, [], 0, None, 0)
  }

  /** The key an entry may get: declared, or computed from its content when the CRC is unknown. */
  ghost predicate KeyOf(t: Task, key: Key)
  {
    && t.FileTask?
    && (if t.raw || t.crc32 != 0 || t.size == 0 then key == FileKeyFor(t.crc32, t.size)
        else exists c, n :: key == FileKeyFor(c, n))
  }

  /** I/O reports a cancellation only once the run context is cancelled. */
  predicate Possible(st: State, t: nat, err: Err)
  {
    match err case TaskFailed(u) => u == t case Stopped => st.cause.Some?
  }

  predicate At(st: State, w: nat) { w < |st.workers| }

  ghost predicate Enabled(st: State, step: Step)
  {
    match step
    case Take(w) => At(st, w) && st.workers[w].Idle? && st.next < |st.tasks|
    case Exit(w) => At(st, w) && st.workers[w].Idle? && st.next >= |st.tasks|
    case Check(w) => At(st, w) && st.workers[w].Taken? && st.workers[w].task < |st.tasks|
    case KeyFound(w, key) => At(st, w) && st.workers[w].Keying? && st.workers[w].task < |st.tasks|
                             && KeyOf(st.tasks[st.workers[w].task], key)
    case KeyFailed(w, err) => At(st, w) && st.workers[w].Keying? && Possible(st, st.workers[w].task, err)
    case Lock(w) => At(st, w) && st.workers[w].Keyed?
    case Commit(w, rec) => At(st, w) && st.workers[w].Owning? && rec.seal == st.seal
        && RecordKey(rec) == st.workers[w].key
    case Land(w) => At(st, w) && st.workers[w].Written?
    case UploadFailed(w, err, _) => At(st, w) && st.workers[w].Owning? && Possible(st, st.workers[w].task, err)
    case Wake(w) => At(st, w) && st.workers[w].Waiting? && st.workers[w].key in st.flights
                    && !st.flights[st.workers[w].key].Pending?
    case GiveUp(w) => At(st, w) && st.workers[w].Waiting? && st.cause.Some?
    case Cancel(w) => At(st, w) && st.workers[w].Failing?
    case Post(w) => At(st, w) && st.workers[w].Ready?
    case ParentCancel => !st.parentDone
    case Gather => st.gathered < |st.results|
  }

  function Move(st: State, w: nat, x: Worker): State
    requires At(st, w)
  {
    st.(workers := st.workers[w := x])
  }

  /** context.CancelCauseFunc: the first cause wins. */
  function Cancelled(st: State, err: Err): State
  {
    if st.cause.None? then st.(cause := Some(err)) else st
  }

  function Apply(st: State, step: Step): State
    requires Enabled(st, step)
  {
    match step
    case Take(w) => Move(st, w, Taken(st.next)).(next := st.next + 1)
    case Exit(w) => Move(st, w, Exited)
    case Check(w) =>
      var t := st.workers[w].task;
      Move(st, w,
           if st.cause.Some? then Ready(Failed(t, st.cause.value))
           else if st.tasks[t].DirTask? then Ready(IsDir(t))
           else Keying(t))
    case KeyFound(w, key) =>
      var t := st.workers[w].task;
      Move(st, w, if key in st.existing then Ready(Stored(t, key, st.existing[key])) else Keyed(t, key))
    case KeyFailed(w, err) => Move(st, w, Failing(st.workers[w].task, err))
    case Lock(w) =>
      var t, key := st.workers[w].task, st.workers[w].key;
      if key in st.flights then Move(st, w, Waiting(t, key))
      else Move(st, w, Owning(t, key)).(flights := st.flights[key := Pending(w)], started := st.started + [key])
    case Commit(w, rec) => Move(st, w, Written(st.workers[w].task, st.workers[w].key, rec))
    case Land(w) =>
      var t, key, rec := st.workers[w].task, st.workers[w].key, st.workers[w].record;
      Move(st, w, Ready(Stored(t, key, rec))).(flights := st.flights[key := Landed(rec)])
    case UploadFailed(w, err, _) =>
      Move(st, w, Failing(st.workers[w].task, err)).(flights := st.flights[st.workers[w].key := Crashed(err)])
    case Wake(w) =>
      var t, key := st.workers[w].task, st.workers[w].key;
      Move(st, w,
           match st.flights[key]
           case Landed(rec) => Ready(Stored(t, key, rec))
           case Crashed(err) => Failing(t, err)
           case Pending(_) => st.workers[w])
    case GiveUp(w) => Move(st, w, Failing(st.workers[w].task, st.cause.value))
    case Cancel(w) => Cancelled(Move(st, w, Ready(Failed(st.workers[w].task, st.workers[w].err))), st.workers[w].err)
    case Post(w) => Move(st, w, Idle).(results := st.results + [st.workers[w].result])
    case ParentCancel => Cancelled(st, Stopped).(parentDone := true)
    case Gather =>
      var r := st.results[st.gathered];
      var st' := st.(gathered := st.gathered + 1);
      if r.Failed? then (if st.firstErr.None? then Cancelled(st', r.err).(firstErr := Some(r.err)) else st')
      else if st.firstErr.Some? then st'
      else st'.(done := st.done + 1)
  }

  /** The effect on the store. A failed upload is aborted, but a writer that cannot abort, or an
      unclear Close, may leave something under the part's name. */
  function ApplyObjects(objects: Objects, st: State, step: Step): Objects
    requires Enabled(st, step)
  {
    match step
    case Commit(w, rec) => if |st.workers[w].key| < 2 then objects
        else objects[PartKeyFor(st.workers[w].key) := Sealed(rec)]
    case UploadFailed(w, _, Some(left)) =>
      if |st.workers[w].key| < 2 then objects else objects[PartKeyFor(st.workers[w].key) := left]
    case _ => objects
  }

  predicate Final(st: State)
  {
    (forall w | 0 <= w < |st.workers| :: st.workers[w].Exited?) && st.gathered == |st.results|
  }

  datatype RunResult = Complete | Cause(err: Err) | Incomplete

  /** runError. */
  function RunError(st: State): RunResult
  {
    var cause := if st.cause.None? then st.firstErr else st.cause;
    if cause.Some? then (if st.parentDone then Incomplete else Cause(cause.value))
    else if st.done != |st.tasks| then Incomplete
    else Complete
  }
}
