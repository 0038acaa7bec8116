/** What every interleaving of the upload pool keeps, and that every run ends. */
module UploadPoolProofs {
  import opened Base
  import opened Keys
  import opened Metadata
  import opened Objects
  import opened UploadPool
  import opened Counting

  // ---- The invariant ----

  predicate Holds(x: Worker) { !x.Idle? && !x.Exited? }

  function TaskOf(x: Worker): nat
    requires Holds(x)
  {
    if x.Ready? then x.result.task else x.task
  }

  function One(x: Worker): nat { if Holds(x) then 1 else 0 }

  ghost predicate Answered(results: seq<Result>, t: nat)
  {
    exists i :: 0 <= i < |results| && results[i].task == t
  }

  /** Every task handed out is with exactly one worker or has exactly one result. */
  ghost predicate TasksOk(st: State)
  {
    st.next <= |st.tasks| && st.gathered <= |st.results| && OnePlaceEach(st.next, st.workers, st.results)
  }

  ghost predicate OnePlaceEach(next: nat, workers: seq<Worker>, results: seq<Result>)
  {
    && (forall w | 0 <= w < |workers| && Holds(workers[w]) ::
          TaskOf(workers[w]) < next && !Answered(results, TaskOf(workers[w])))
    && (forall w, v | 0 <= w < v < |workers| && Holds(workers[w]) && Holds(workers[v]) ::
         TaskOf(workers[w]) != TaskOf(workers[v]))
    && (forall i | 0 <= i < |results| :: results[i].task < next)
    && (forall i, j | 0 <= i < j < |results| :: results[i].task != results[j].task)
    && |results| + Sum(workers, One) == next
  }

  ghost predicate Owns(x: Worker, k: Key)
  {
    (x.Owning? || x.Written?) && x.key == k
  }

  ghost predicate HasKey(x: Worker) { x.Keyed? || x.Owning? || x.Written? || x.Waiting? }

  /** Single flight: every started upload has one flight, and a pending one has a working owner. */
  ghost predicate FlightsOk(st: State)
  {
    && KeysFit(st.tasks, st.existing, st.workers)
    && OwnersFit(st.workers, st.flights)
    && StartedFit(st.existing, st.flights, st.started)
  }

  ghost predicate KeyFits(tasks: seq<Task>, existing: map<Key, FileRecord>, x: Worker)
  {
    HasKey(x) ==> x.task < |tasks| && KeyOf(tasks[x.task], x.key) && x.key !in existing
  }

  ghost predicate KeysFit(tasks: seq<Task>, existing: map<Key, FileRecord>, workers: seq<Worker>)
  {
    forall w | 0 <= w < |workers| :: KeyFits(tasks, existing, workers[w])
  }

  ghost predicate OwnersFit(workers: seq<Worker>, flights: map<Key, Flight>)
  {
    && (forall w | 0 <= w < |workers| && (workers[w].Owning? || workers[w].Written?) ::
          workers[w].key in flights && flights[workers[w].key] == Pending(w))
    && (forall w | 0 <= w < |workers| && workers[w].Waiting? :: workers[w].key in flights)
    && (forall k {:trigger HasOwner(workers, flights, k)} | k in flights :: HasOwner(workers, flights, k))
  }

  ghost predicate HasOwner(workers: seq<Worker>, flights: map<Key, Flight>, k: Key)
    requires k in flights
  {
    flights[k].Pending? ==> flights[k].owner < |workers| && Owns(workers[flights[k].owner], k)
  }

  ghost predicate StartedFit(existing: map<Key, FileRecord>, flights: map<Key, Flight>, started: seq<Key>)
  {
    && (forall k | k in flights :: |k| >= 10 && k !in existing)
    && (forall k :: k in started <==> k in flights)
    && Distinct(started)
  }

  /** The record a key has in this run: the loaded one, or that of its landed flight. */
  ghost predicate HasRecord(st: State, k: Key, rec: FileRecord)
  {
    if k in st.existing then rec == st.existing[k] else k in st.flights && st.flights[k] == Landed(rec)
  }

  ghost predicate FreshPart(seal: Seal, objects: Objects, k: Key, rec: FileRecord)
  {
    RecordKey(rec) == k && rec.seal == seal && PartIntact(objects, k, rec)
  }

  ghost predicate ResultOk(st: State, r: Result)
  {
    && r.task < |st.tasks|
    && match r
       case IsDir(t) => st.tasks[t].DirTask?
       case Stored(t, k, rec) => KeyOf(st.tasks[t], k) && HasRecord(st, k, rec)
       case Failed(t, err) => st.cause.Some? && ErrOk(st, err)
  }

  /** An error that only reports cancellation exists only in a cancelled run. */
  ghost predicate ErrOk(st: State, err: Err)
  {
    match err case TaskFailed(t) => t < |st.tasks| case Stopped => st.cause.Some?
  }

  ghost predicate RecordsOk(st: State, objects: Objects)
  {
    FreshParts(st.seal, st.workers, st.flights, objects)
  }

  ghost predicate FreshParts(seal: Seal, workers: seq<Worker>, flights: map<Key, Flight>, objects: Objects)
  {
    && (forall k | k in flights && flights[k].Landed? :: FreshPart(seal, objects, k, flights[k].record))
    && (forall w | 0 <= w < |workers| && workers[w].Written? ::
         FreshPart(seal, objects, workers[w].key, workers[w].record))
  }

  ghost predicate ResultsOk(st: State)
  {
    && (forall w | 0 <= w < |st.workers| && st.workers[w].Ready? :: ResultOk(st, st.workers[w].result))
    && (forall i | 0 <= i < |st.results| :: ResultOk(st, st.results[i]))
  }

  ghost predicate CauseOk(st: State)
  {
    && (st.cause == Some(Stopped) ==> st.parentDone)
    && (st.cause.Some? ==> ErrOk(st, st.cause.value))
    && (forall w | 0 <= w < |st.workers| && st.workers[w].Failing? :: ErrOk(st, st.workers[w].err))
    && (forall k | k in st.flights && st.flights[k].Crashed? :: ErrOk(st, st.flights[k].err))
    && (st.firstErr.Some? ==> st.cause.Some?)
    && (st.firstErr.None? ==> st.done == st.gathered)
    && (st.parentDone ==> st.cause.Some?)
  }

  ghost predicate Inv(st: State, objects: Objects)
  {
    && TasksOk(st) && FlightsOk(st) && RecordsOk(st, objects) && ResultsOk(st) && CauseOk(st)
  }

  // ---- Every step keeps it ----

  lemma KeyLong(t: Task, k: Key)
    requires KeyOf(t, k)
    ensures |k| >= 10
  {
    if !(t.raw || t.crc32 != 0 || t.size == 0) {
      var c, n :| k == FileKeyFor(c, n);
    }
  }

  lemma PartsApart(k1: Key, k2: Key)
    requires |k1| >= 2 && |k2| >= 2 && k1 != k2
    ensures PartKeyFor(k1) != PartKeyFor(k2)
  {
    if PartKeyFor(k1) == PartKeyFor(k2) {
      PartKeyInjective(k1, k2);
    }
  }

  /** Worker w goes on with the same task (or stays without one). */
  lemma TasksMoved(st: State, w: nat, x: Worker)
    requires TasksOk(st) && At(st, w) && Holds(x) == Holds(st.workers[w])
    requires Holds(x) ==> TaskOf(x) == TaskOf(st.workers[w])
    ensures OnePlaceEach(st.next, st.workers[w := x], st.results)
  {
    SumMove(st.workers, One, w, x);
  }

  lemma TasksTaken(st: State, w: nat)
    requires TasksOk(st) && At(st, w) && st.workers[w].Idle? && st.next < |st.tasks|
    ensures OnePlaceEach(st.next + 1, st.workers[w := Taken(st.next)], st.results)
  {
    SumMove(st.workers, One, w, Taken(st.next));
  }

  lemma TasksPosted(st: State, w: nat)
    requires TasksOk(st) && At(st, w) && st.workers[w].Ready?
    ensures OnePlaceEach(st.next, st.workers[w := Idle], st.results + [st.workers[w].result])
  {
    var r := st.workers[w].result;
    var results := st.results + [r];
    SumMove(st.workers, One, w, Idle);
    forall t: nat ensures Answered(results, t) <==> Answered(st.results, t) || t == r.task {
      if Answered(st.results, t) {
        var i :| 0 <= i < |st.results| && st.results[i].task == t;
        assert results[i].task == t;
      }
      assert results[|st.results|] == r;
    }
    forall i | 0 <= i < |st.results| ensures st.results[i].task != r.task {
      assert Answered(st.results, st.results[i].task) && TaskOf(st.workers[w]) == r.task;
    }
  }

  /** Flights and objects stay, and no owner comes or goes. */
  lemma FlightsMoved(st: State, w: nat, x: Worker)
    requires FlightsOk(st) && At(st, w) && KeyFits(st.tasks, st.existing, x)
    requires x.Waiting? ==> x.key in st.flights
    requires if st.workers[w].Owning? then x.Written? && x.key == st.workers[w].key
             else !st.workers[w].Written? && !x.Owning? && !x.Written?
    ensures KeysFit(st.tasks, st.existing, st.workers[w := x]) && OwnersFit(st.workers[w := x], st.flights)
  {
    KeysMoved(st.tasks, st.existing, st.workers, w, x);
    OwnersMoved(st.workers, st.flights, w, x);
  }

  lemma KeysMoved(tasks: seq<Task>, existing: map<Key, FileRecord>, workers: seq<Worker>, w: nat, x: Worker)
    requires KeysFit(tasks, existing, workers) && w < |workers| && KeyFits(tasks, existing, x)
    ensures KeysFit(tasks, existing, workers[w := x])
  {
  }

  lemma OwnersMoved(workers: seq<Worker>, flights: map<Key, Flight>, w: nat, x: Worker)
    requires OwnersFit(workers, flights) && w < |workers|
    requires x.Waiting? ==> x.key in flights
    requires if workers[w].Owning? then x.Written? && x.key == workers[w].key
             else !workers[w].Written? && !x.Owning? && !x.Written?
    ensures OwnersFit(workers[w := x], flights)
  {
    var moved := workers[w := x];
    forall k | k in flights ensures HasOwner(moved, flights, k) {
      assert HasOwner(workers, flights, k);
    }
    forall v | 0 <= v < |moved| && (moved[v].Owning? || moved[v].Written?)
      ensures moved[v].key in flights && flights[moved[v].key] == Pending(v)
    {
      assert workers[v].key in flights && flights[workers[v].key] == Pending(v);
    }
  }

  lemma FlightsOpened(st: State, w: nat)
    requires FlightsOk(st) && At(st, w) && st.workers[w].Keyed? && st.workers[w].key !in st.flights
    ensures FlightsOk(Apply(st, Lock(w)))
  {
    var key, x := st.workers[w].key, Owning(st.workers[w].task, st.workers[w].key);
    assert KeyFits(st.tasks, st.existing, st.workers[w]);
    KeyLong(st.tasks[st.workers[w].task], key);
    StartedOpened(st, key, w);
    OwnersOpened(st, w, x, key);
  }

  lemma StartedOpened(st: State, key: Key, w: nat)
    requires StartedFit(st.existing, st.flights, st.started) && key !in st.flights && key !in st.existing && |key| >= 10
    ensures StartedFit(st.existing, st.flights[key := Pending(w)], st.started + [key])
  {
    forall i | 0 <= i < |st.started| ensures st.started[i] != key {
      assert st.started[i] in st.started;
    }
    forall k ensures k in st.started + [key] <==> k in st.flights[key := Pending(w)] {
      assert k in st.started + [key] <==> k in st.started || k == key;
    }
  }

  lemma OwnersOpened(st: State, w: nat, x: Worker, key: Key)
    requires OwnersFit(st.workers, st.flights) && At(st, w) && st.workers[w].Keyed? && key !in st.flights
    requires x.Owning? && x.key == key
    ensures OwnersFit(st.workers[w := x], st.flights[key := Pending(w)])
  {
    var workers, flights := st.workers[w := x], st.flights[key := Pending(w)];
    forall k | k in flights ensures HasOwner(workers, flights, k) {
      if k != key {
        assert HasOwner(st.workers, st.flights, k);
      }
    }
  }

  lemma FlightsClosed(st: State, w: nat, x: Worker, f: Flight)
    requires FlightsOk(st) && At(st, w) && (st.workers[w].Owning? || st.workers[w].Written?) && !HasKey(x)
               && !f.Pending?
    ensures KeysFit(st.tasks, st.existing, st.workers[w := x])
    ensures OwnersFit(st.workers[w := x], st.flights[st.workers[w].key := f])
    ensures StartedFit(st.existing, st.flights[st.workers[w].key := f], st.started)
  {
    assert st.flights[st.workers[w].key] == Pending(w);
    OwnersClosed(st, w, x, f);
  }

  lemma OwnersClosed(st: State, w: nat, x: Worker, f: Flight)
    requires OwnersFit(st.workers, st.flights) && At(st, w)
    requires (st.workers[w].Owning? || st.workers[w].Written?) && !HasKey(x) && !f.Pending?
    ensures OwnersFit(st.workers[w := x], st.flights[st.workers[w].key := f])
  {
    var key := st.workers[w].key;
    var workers, flights := st.workers[w := x], st.flights[key := f];
    forall k | k in flights ensures HasOwner(workers, flights, k) {
      assert k in st.flights && HasOwner(st.workers, st.flights, k);
    }
    forall v | 0 <= v < |workers| && (workers[v].Owning? || workers[v].Written?)
      ensures workers[v].key in flights && flights[workers[v].key] == Pending(v)
    {
      assert st.flights[st.workers[v].key] == Pending(v) && st.flights[key] == Pending(w);
    }
  }

  /** Later states know at least what earlier ones knew about causes and landed flights. */
  ghost predicate Knows(st: State, st': State)
  {
    && st'.tasks == st.tasks && st'.existing == st.existing && st'.seal == st.seal
    && (st.cause.Some? ==> st'.cause == st.cause)
    && (forall k | k in st.flights && !st.flights[k].Pending? :: k in st'.flights && st'.flights[k] == st.flights[k])
  }

  lemma KnowsResult(st: State, st': State, r: Result)
    requires Knows(st, st') && ResultOk(st, r)
    ensures ResultOk(st', r)
  {
    if r.Stored? && r.key !in st.existing {
      assert st.flights[r.key].Landed?;
    }
  }

  /** Worker w moves to x; every other worker and every old result keep their facts. */
  lemma ResultsMoved(st: State, st': State, w: nat, x: Worker)
    requires ResultsOk(st) && Knows(st, st') && At(st, w) && st'.workers == st.workers[w := x]
    requires x.Ready? ==> ResultOk(st', x.result)
    requires st'.results == st.results || (st.workers[w].Ready? && st'.results == st.results + [st.workers[w].result])
    ensures ResultsOk(st')
  {
    forall v | 0 <= v < |st'.workers| && st'.workers[v].Ready? ensures ResultOk(st', st'.workers[v].result) {
      if v != w {
        KnowsResult(st, st', st.workers[v].result);
      }
    }
    forall i | 0 <= i < |st'.results| ensures ResultOk(st', st'.results[i]) {
      if i < |st.results| {
        KnowsResult(st, st', st.results[i]);
      } else {
        KnowsResult(st, st', st.workers[w].result);
      }
    }
  }

  lemma CauseMoved(st: State, st': State, w: nat, x: Worker)
    requires CauseOk(st) && Knows(st, st') && At(st, w) && st'.workers == st.workers[w := x]
    requires x.Failing? ==> ErrOk(st', x.err)
    requires forall k | k in st'.flights && st'.flights[k].Crashed? ::
               (k in st.flights && st'.flights[k] == st.flights[k]) || ErrOk(st', st'.flights[k].err)
    requires st'.cause == st.cause || (st'.cause.Some? && ErrOk(st, st'.cause.value))
    requires st'.parentDone == st.parentDone && st'.firstErr == st.firstErr && st'.done == st.done
               && st'.gathered == st.gathered
    ensures CauseOk(st')
  {
    forall v | 0 <= v < |st'.workers| && st'.workers[v].Failing? ensures ErrOk(st', st'.workers[v].err) {
      if v != w {
        assert ErrOk(st, st.workers[v].err);
      }
    }
  }

  lemma RecordsMoved(st: State, objects: Objects, w: nat, x: Worker)
    requires RecordsOk(st, objects) && At(st, w) && !x.Written?
    ensures FreshParts(st.seal, st.workers[w := x], st.flights, objects)
  {
  }

  /** The steps that change nothing but the worker's own program point. */
  lemma MoveKeeps(st: State, objects: Objects, w: nat, x: Worker)
    requires Inv(st, objects) && At(st, w)
    requires Holds(x) == Holds(st.workers[w]) && (Holds(x) ==> TaskOf(x) == TaskOf(st.workers[w]))
    requires !st.workers[w].Owning? && !st.workers[w].Written? && !x.Owning? && !x.Written?
    requires KeyFits(st.tasks, st.existing, x)
    requires x.Waiting? ==> x.key in st.flights
    requires x.Ready? ==> ResultOk(st, x.result)
    requires x.Failing? ==> ErrOk(st, x.err)
    ensures Inv(Move(st, w, x), objects)
  {
    var st' := Move(st, w, x);
    TasksMoved(st, w, x);
    FlightsMoved(st, w, x);
    RecordsMoved(st, objects, w, x);
    if x.Ready? {
      KnowsResult(st, st', x.result);
    }
    ResultsMoved(st, st', w, x);
    CauseMoved(st, st', w, x);
  }

  lemma HeldTask(st: State, w: nat)
    requires TasksOk(st) && At(st, w) && Holds(st.workers[w])
    ensures TaskOf(st.workers[w]) < |st.tasks|
  {
  }

  /** Where each of these steps leaves its worker. */
  lemma QuietTarget(st: State, objects: Objects, step: Step)
    requires Inv(st, objects) && Enabled(st, step)
    requires step.Exit? || step.Check? || step.KeyFound? || step.KeyFailed? || step.Wake? || step.GiveUp?
    ensures Apply(st, step).workers == st.workers[step.w := Apply(st, step).workers[step.w]]
    ensures Apply(st, step) == Move(st, step.w, Apply(st, step).workers[step.w])
    ensures var x := Apply(st, step).workers[step.w];
            && Holds(x) == Holds(st.workers[step.w]) && (Holds(x) ==> TaskOf(x) == TaskOf(st.workers[step.w]))
            && !x.Owning? && !x.Written? && !x.Waiting?
  {
  }

  ghost predicate Fits(st: State, x: Worker)
  {
    && KeyFits(st.tasks, st.existing, x)
    && (x.Ready? ==> ResultOk(st, x.result))
    && (x.Failing? ==> ErrOk(st, x.err))
  }

  lemma CheckFits(st: State, w: nat)
    requires TasksOk(st) && CauseOk(st) && Enabled(st, Check(w))
    ensures Fits(st, Apply(st, Check(w)).workers[w])
  {
    HeldTask(st, w);
  }

  lemma KeyingFits(st: State, step: Step)
    requires TasksOk(st) && Enabled(st, step) && (step.KeyFound? || step.KeyFailed?)
    ensures Fits(st, Apply(st, step).workers[step.w])
  {
    HeldTask(st, step.w);
  }

  lemma WaitingFits(st: State, objects: Objects, step: Step)
    requires Inv(st, objects) && Enabled(st, step) && (step.Wake? || step.GiveUp?)
    ensures Fits(st, Apply(st, step).workers[step.w])
  {
    HeldTask(st, step.w);
  }

  lemma QuietFits(st: State, objects: Objects, step: Step)
    requires Inv(st, objects) && Enabled(st, step)
    requires step.Exit? || step.Check? || step.KeyFound? || step.KeyFailed? || step.Wake? || step.GiveUp?
    ensures Fits(st, Apply(st, step).workers[step.w])
  {
    match step
    case Check(w) => CheckFits(st, w);
    case KeyFound(_, _) => KeyingFits(st, step);
    case KeyFailed(_, _) => KeyingFits(st, step);
    case Wake(_) => WaitingFits(st, objects, step);
    case GiveUp(_) => WaitingFits(st, objects, step);
    case Exit(_) =>
  }

  lemma QuietStep(st: State, objects: Objects, step: Step)
    requires Inv(st, objects) && Enabled(st, step)
    requires step.Exit? || step.Check? || step.KeyFound? || step.KeyFailed? || step.Wake? || step.GiveUp?
    ensures Inv(Apply(st, step), objects)
  {
    QuietTarget(st, objects, step);
    QuietFits(st, objects, step);
    MoveKeeps(st, objects, step.w, Apply(st, step).workers[step.w]);
  }

  lemma TakeStep(st: State, objects: Objects, w: nat)
    requires Inv(st, objects) && Enabled(st, Take(w))
    ensures Inv(Apply(st, Take(w)), objects)
  {
    var st' := Apply(st, Take(w));
    TasksTaken(st, w);
    FlightsMoved(st, w, Taken(st.next));
    RecordsMoved(st, objects, w, Taken(st.next));
    ResultsMoved(st, st', w, Taken(st.next));
    CauseMoved(st, st', w, Taken(st.next));
  }

  lemma OpenStep(st: State, objects: Objects, w: nat)
    requires Inv(st, objects) && Enabled(st, Lock(w)) && st.workers[w].key !in st.flights
    ensures Inv(Apply(st, Lock(w)), objects)
  {
    var x := Owning(st.workers[w].task, st.workers[w].key);
    var st' := Apply(st, Lock(w));
    TasksMoved(st, w, x);
    FlightsOpened(st, w);
    RecordsOpened(st, objects, w, x, st.workers[w].key);
    ResultsMoved(st, st', w, x);
    CauseMoved(st, st', w, x);
  }

  lemma RecordsOpened(st: State, objects: Objects, w: nat, x: Worker, key: Key)
    requires RecordsOk(st, objects) && At(st, w) && !x.Written?
    ensures FreshParts(st.seal, st.workers[w := x], st.flights[key := Pending(w)], objects)
  {
  }

  lemma LockStep(st: State, objects: Objects, w: nat)
    requires Inv(st, objects) && Enabled(st, Lock(w))
    ensures Inv(Apply(st, Lock(w)), objects)
  {
    var t, key := st.workers[w].task, st.workers[w].key;
    if key in st.flights {
      MoveKeeps(st, objects, w, Waiting(t, key));
    } else {
      OpenStep(st, objects, w);
    }
  }

  /** Only the part of an owned key is touched, so every other part stays as it was. */
  lemma OthersIntact(st: State, objects: Objects, w: nat, o: Object, k: Key, rec: FileRecord)
    requires FlightsOk(st) && At(st, w) && st.workers[w].Owning? && PartIntact(objects, k, rec)
    requires k !in st.flights || st.flights[k] != Pending(w)
    ensures |st.workers[w].key| >= 10
    ensures PartIntact(objects[PartKeyFor(st.workers[w].key) := o], k, rec)
  {
    KeyLong(st.tasks[st.workers[w].task], st.workers[w].key);
    PartsApart(k, st.workers[w].key);
  }

  lemma TouchedRecords(st: State, objects: Objects, w: nat, o: Object)
    requires FlightsOk(st) && RecordsOk(st, objects) && At(st, w) && st.workers[w].Owning?
    ensures |st.workers[w].key| >= 10
    ensures RecordsOk(st, objects[PartKeyFor(st.workers[w].key) := o])
  {
    KeyLong(st.tasks[st.workers[w].task], st.workers[w].key);
    var objects' := objects[PartKeyFor(st.workers[w].key) := o];
    forall k | k in st.flights && st.flights[k].Landed? ensures FreshPart(st.seal, objects', k, st.flights[k].record) {
      OthersIntact(st, objects, w, o, k, st.flights[k].record);
    }
    forall v | 0 <= v < |st.workers| && st.workers[v].Written?
      ensures FreshPart(st.seal, objects', st.workers[v].key, st.workers[v].record)
    {
      OthersIntact(st, objects, w, o, st.workers[v].key, st.workers[v].record);
    }
  }

  lemma CommitStep(st: State, objects: Objects, w: nat, rec: FileRecord)
    requires Inv(st, objects) && Enabled(st, Commit(w, rec))
    ensures Inv(Apply(st, Commit(w, rec)), ApplyObjects(objects, st, Commit(w, rec)))
  {
    var x := Written(st.workers[w].task, st.workers[w].key, rec);
    TasksMoved(st, w, x);
    FlightsMoved(st, w, x);
    TouchedRecords(st, objects, w, Sealed(rec));
    RecordsCommitted(st, ApplyObjects(objects, st, Commit(w, rec)), w, x);
    ResultsMoved(st, Apply(st, Commit(w, rec)), w, x);
    CauseMoved(st, Apply(st, Commit(w, rec)), w, x);
  }

  lemma RecordsCommitted(st: State, objects: Objects, w: nat, x: Worker)
    requires RecordsOk(st, objects) && At(st, w) && x.Written? && FreshPart(st.seal, objects, x.key, x.record)
    ensures FreshParts(st.seal, st.workers[w := x], st.flights, objects)
  {
  }

  /** Closing a pending flight takes no knowledge away. */
  lemma KnowsClosed(st: State, w: nat, x: Worker, f: Flight)
    requires FlightsOk(st) && At(st, w) && (st.workers[w].Owning? || st.workers[w].Written?)
    ensures Knows(st, Move(st, w, x).(flights := st.flights[st.workers[w].key := f]))
  {
    assert st.flights[st.workers[w].key] == Pending(w);
  }

  lemma RecordsClosed(st: State, objects: Objects, w: nat, x: Worker, key: Key, f: Flight)
    requires RecordsOk(st, objects) && At(st, w) && !x.Written?
    requires f.Landed? ==> FreshPart(st.seal, objects, key, f.record)
    ensures FreshParts(st.seal, st.workers[w := x], st.flights[key := f], objects)
  {
  }

  lemma CauseClosed(st: State, w: nat, x: Worker, f: Flight)
    requires CauseOk(st) && At(st, w) && (st.workers[w].Owning? || st.workers[w].Written?)
    requires x.Failing? ==> ErrOk(st, x.err)
    requires f.Crashed? ==> ErrOk(st, f.err)
    requires Knows(st, Move(st, w, x).(flights := st.flights[st.workers[w].key := f]))
    ensures CauseOk(Move(st, w, x).(flights := st.flights[st.workers[w].key := f]))
  {
    CauseMoved(st, Move(st, w, x).(flights := st.flights[st.workers[w].key := f]), w, x);
  }

  lemma LandStep(st: State, objects: Objects, w: nat)
    requires Inv(st, objects) && Enabled(st, Land(w))
    ensures Inv(Apply(st, Land(w)), objects)
  {
    var t, key, rec := st.workers[w].task, st.workers[w].key, st.workers[w].record;
    var x := Ready(Stored(t, key, rec));
    TasksMoved(st, w, x);
    FlightsClosed(st, w, x, Landed(rec));
    RecordsClosed(st, objects, w, x, key, Landed(rec));
    KnowsClosed(st, w, x, Landed(rec));
    ResultsMoved(st, Apply(st, Land(w)), w, x);
    CauseClosed(st, w, x, Landed(rec));
  }

  lemma UploadFailedStep(st: State, objects: Objects, w: nat, err: Err, left: Option<Object>)
    requires Inv(st, objects) && Enabled(st, UploadFailed(w, err, left))
    ensures Inv(Apply(st, UploadFailed(w, err, left)), ApplyObjects(objects, st, UploadFailed(w, err, left)))
  {
    var x := Failing(st.workers[w].task, err);
    var step := UploadFailed(w, err, left);
    TasksMoved(st, w, x);
    FlightsClosed(st, w, x, Crashed(err));
    if left.Some? {
      TouchedRecords(st, objects, w, left.value);
    }
    RecordsClosed(st, ApplyObjects(objects, st, step), w, x, st.workers[w].key, Crashed(err));
    KnowsClosed(st, w, x, Crashed(err));
    ResultsMoved(st, Apply(st, step), w, x);
    CauseClosed(st, w, x, Crashed(err));
  }

  lemma CancelStep(st: State, objects: Objects, w: nat)
    requires Inv(st, objects) && Enabled(st, Cancel(w))
    ensures Inv(Apply(st, Cancel(w)), objects)
  {
    var t, err := st.workers[w].task, st.workers[w].err;
    var x := Ready(Failed(t, err));
    var st' := Apply(st, Cancel(w));
    assert ErrOk(st, err);
    TasksMoved(st, w, x);
    FlightsMoved(st, w, x);
    RecordsMoved(st, objects, w, x);
    ResultsMoved(st, st', w, x);
    CauseMoved(st, st', w, x);
  }

  lemma PostStep(st: State, objects: Objects, w: nat)
    requires Inv(st, objects) && Enabled(st, Post(w))
    ensures Inv(Apply(st, Post(w)), objects)
  {
    var st' := Apply(st, Post(w));
    TasksPosted(st, w);
    FlightsMoved(st, w, Idle);
    RecordsMoved(st, objects, w, Idle);
    ResultsMoved(st, st', w, Idle);
    CauseMoved(st, st', w, Idle);
  }

  /** Steps of the caller's context and of the gather loop: no worker, flight or result moves. */
  ghost predicate Outside(st: State, st': State)
  {
    && Knows(st, st') && st'.workers == st.workers && st'.results == st.results
    && st'.flights == st.flights && st'.started == st.started && st'.next == st.next
    && st'.gathered <= |st.results|
  }

  lemma OutsideResults(st: State, st': State)
    requires ResultsOk(st) && Outside(st, st')
    ensures ResultsOk(st')
  {
    forall w | 0 <= w < |st.workers| && st.workers[w].Ready? ensures ResultOk(st', st.workers[w].result) {
      KnowsResult(st, st', st.workers[w].result);
    }
    forall i | 0 <= i < |st.results| ensures ResultOk(st', st.results[i]) {
      KnowsResult(st, st', st.results[i]);
    }
  }

  lemma OutsideCause(st: State, step: Step)
    requires TasksOk(st) && ResultsOk(st) && CauseOk(st) && Enabled(st, step) && (step.ParentCancel? || step.Gather?)
    ensures CauseOk(Apply(st, step)) && Outside(st, Apply(st, step))
  {
    if step.Gather? {
      assert ResultOk(st, st.results[st.gathered]);
    }
  }

  lemma OutsideStep(st: State, objects: Objects, step: Step)
    requires Inv(st, objects) && Enabled(st, step) && (step.ParentCancel? || step.Gather?)
    ensures Inv(Apply(st, step), objects)
  {
    OutsideCause(st, step);
    OutsideResults(st, Apply(st, step));
  }

  lemma StepInv(st: State, objects: Objects, step: Step)
    requires Inv(st, objects) && Enabled(st, step)
    ensures Inv(Apply(st, step), ApplyObjects(objects, st, step))
  {
    match step
    case Take(w) => TakeStep(st, objects, w);
    case Lock(w) => LockStep(st, objects, w);
    case Commit(w, rec) => CommitStep(st, objects, w, rec);
    case Land(w) => LandStep(st, objects, w);
    case UploadFailed(w, err, left) => UploadFailedStep(st, objects, w, err, left);
    case Cancel(w) => CancelStep(st, objects, w);
    case Post(w) => PostStep(st, objects, w);
    case ParentCancel => OutsideStep(st, objects, step);
    case Gather => OutsideStep(st, objects, step);
    case _ => QuietStep(st, objects, step);
  }

  lemma InitInv(tasks: seq<Task>, existing: map<Key, FileRecord>, seal: Seal, n: nat, objects: Objects)
    ensures Inv(Init(tasks, existing, seal, n), objects)
  {
    SumConstant(Init(tasks, existing, seal, n).workers, One, 0);
  }
}
