/** The store over any sequence of Backup, DeleteVersion and GC runs, at the grain of single worker
    steps and storage calls, with crashes anywhere (tsync/backup.go RunBackup, tsync/client.go). */
module Lifecycle {
  import opened Base
  import opened Keys
  import opened Metadata
  import opened Resolve
  import opened Mark
  import opened TempTree
  import opened Objects
  import opened Store
  import opened Snapshot
  import Pool = UploadPool
  import Proofs = UploadPoolProofs
  import Runs = UploadPoolRuns
  import Backup
  import Gather
  import Client

  /** What the one running client operation is doing; a crash forgets it. */
  datatype Phase =
    | Quiet
    | Backing(single: bool, pool: Pool.State)  // workers running or drained, nothing committed
    | Cleaning(doomed: set<string>)            // metadata written, best-effort deletions under way

  datatype System = System(store: StoreState, phase: Phase)

  datatype Step =
    | StartBackup(tasks: seq<Pool.Task>, seal: Seal, workers: nat, single: bool)
    | Work(step: Pool.Step)
    | Commit(id: VersionId, version: Version, trees: Trees, applied: bool, reported: bool)
    | StartDelete(gone: VersionId, applied: bool, reported: bool)
    | StartGC(applied: bool, reported: bool)
    | Remove(name: string, applied: bool)
    | Stop                                     // a crash, an error return, or the end of the operation

  function Loaded(meta: Option<BackupMetadata>): map<Key, FileRecord>
  {
    if meta.Some? then meta.value.files else map[]
  }

  /** The tree the committing client built: BuildTree on what the gather loop collected. */
  ghost predicate Built(s: Scheme, pool: Pool.State, root: Hash, trees: Trees)
  {
    && Gather.InRange(pool.tasks, pool.results)
    && Gather.KeysKnown(Backup.PathsOf(pool), Gather.NewFiles(pool.results))
    && Represents(s, trees, root, Backup.FilesOf(pool), Backup.DirsOf(pool))
  }

  ghost predicate CommitReady(s: Scheme, y: System, id: VersionId, root: Hash, trees: Trees)
  {
    && y.phase.Backing?
    && Pool.Final(y.phase.pool) && Pool.RunError(y.phase.pool).Complete?
    && (y.store.meta.Some? ==> id !in y.store.meta.value.versions)
    && Built(s, y.phase.pool, root, trees)
  }

  ghost predicate Enabled(s: Scheme, y: System, step: Step)
  {
    match step
    case StartBackup(tasks, _, workers, _) => y.phase.Quiet? && (workers == 0 ==> tasks == [])
                                              && forall t | 0 <= t < |tasks| :: Gather.ValidTask(tasks[t])
    case Work(p) => y.phase.Backing? && Pool.Enabled(y.phase.pool, p)
    case Commit(id, v, trees, _, _) => CommitReady(s, y, id, v.root, trees)
    case StartDelete(id, _, _) => y.phase.Quiet? && y.store.meta.Some? && id in y.store.meta.value.versions
                                  && !Client.Damaged(s, Without(y.store.meta.value, id))
    case StartGC(_, _) => y.phase.Quiet? && y.store.meta.Some? && !Client.Damaged(s, y.store.meta.value)
    case Remove(name, _) => y.phase.Cleaning? && name in y.phase.doomed
    case Stop => true
  }

  /** A metadata write: all or nothing, and a reported failure may still have taken effect. */
  function Written(y: System, md: BackupMetadata, applied: bool, reported: bool, doomed: set<string>): System
  {
    System(if applied then StoreState(Some(md), y.store.objects) else y.store,
           if applied && reported then Cleaning(doomed) else Quiet)
  }

  ghost function Committed(y: System, id: VersionId, v: Version, trees: Trees): BackupMetadata
    requires y.phase.Backing?
  {
    NewMetadata(y.store.meta, y.phase.single, id, v, trees, Gather.NewFiles(y.phase.pool.results))
  }

  ghost function Apply(s: Scheme, y: System, step: Step): System
    requires Enabled(s, y, step)
  {
    match step
    case StartBackup(tasks, seal, workers, single) =>
      System(y.store, Backing(single, Pool.Init(tasks, Loaded(y.store.meta), seal, workers)))
    case Work(p) =>
      System(StoreState(y.store.meta, Pool.ApplyObjects(y.store.objects, y.phase.pool, p)),
             Backing(y.phase.single, Pool.Apply(y.phase.pool, p)))
    case Commit(id, v, trees, applied, reported) =>
      var md := Committed(y, id, v, trees);
      var doomed := if y.phase.single then Backup.StaleParts(Loaded(y.store.meta), md.files) else {};
      Written(y, md, applied, reported, doomed)
    case StartDelete(id, applied, reported) =>
      var md := Without(y.store.meta.value, id);
      Written(y, Pruned(md), applied, reported, Backup.StaleParts(md.files, Pruned(md).files))
    case StartGC(applied, reported) =>
      var md := Pruned(y.store.meta.value);
      Written(y, md, applied, reported, Client.Orphans(md, y.store.objects))
    case Remove(name, applied) =>
      y.(store := StoreState(y.store.meta, if applied then y.store.objects - {name} else y.store.objects))
    case Stop => System(y.store, Quiet)
  }

  // ---- The invariant ----

  ghost predicate PhaseInv(y: System)
  {
    match y.phase
    case Quiet => true
    case Backing(_, pool) => pool.existing == Loaded(y.store.meta) && Runs.PoolInv(pool, y.store.objects)
                             && forall t | 0 <= t < |pool.tasks| :: Gather.ValidTask(pool.tasks[t])
    case Cleaning(doomed) => y.store.meta.Some? && forall n | n in doomed :: Unneeded(y.store.meta.value, n)
  }

  ghost predicate SystemInv(s: Scheme, y: System)
  {
    StoreInv(s, y.store) && PhaseInv(y)
  }

  // ---- Worker steps leave what the metadata refers to alone ----

  lemma WorkKeepsPart(pool: Pool.State, objects: Objects, p: Pool.Step, k: Key, rec: FileRecord)
    requires Runs.PoolInv(pool, objects) && Pool.Enabled(pool, p)
    requires k in pool.existing && PartIntact(objects, k, rec)
    ensures PartIntact(Pool.ApplyObjects(objects, pool, p), k, rec)
  {
    forall j | j in pool.started ensures PartKeyFor(j) != PartKeyFor(k) {
      assert j in pool.flights;
      Proofs.PartsApart(j, k);
    }
    Runs.StepLeavesOthers(pool, objects, p, PartKeyFor(k));
  }

  lemma WorkKeepsStore(s: Scheme, y: System, p: Pool.Step)
    requires SystemInv(s, y) && y.phase.Backing? && Pool.Enabled(y.phase.pool, p)
    ensures StoreInv(s, Apply(s, y, Work(p)).store)
  {
    if y.store.meta.Some? {
      var md, pool, objects := y.store.meta.value, y.phase.pool, y.store.objects;
      var after := Pool.ApplyObjects(objects, pool, p);
      forall k | k in md.files ensures RecordKey(md.files[k]) == k && PartIntact(after, k, md.files[k]) {
        WorkKeepsPart(pool, objects, p, k, md.files[k]);
      }
    }
  }

  lemma WorkStep(s: Scheme, y: System, p: Pool.Step)
    requires SystemInv(s, y) && Enabled(s, y, Work(p))
    ensures SystemInv(s, Apply(s, y, Work(p)))
  {
    WorkKeepsStore(s, y, p);
    Runs.StepPoolInv(y.phase.pool, y.store.objects, p);
    Runs.InputStays(y.phase.pool, p);
  }

  // ---- Metadata writes ----

  lemma StaleUnneeded(files: map<Key, FileRecord>, md: BackupMetadata)
    ensures forall n | n in Backup.StaleParts(files, md.files) :: Unneeded(md, n)
  {
    forall n | n in Backup.StaleParts(files, md.files) ensures Unneeded(md, n) {
      var k :| k in files && k !in md.files && IsValidFileKey(k) && PartKeyFor(k) == n;
      DroppedKeyUnneeded(md, k);
    }
  }

  lemma CommitStep(s: Scheme, y: System, step: Step)
    requires CollisionFree(s) && WellFounded(s)
    requires SystemInv(s, y) && step.Commit? && Enabled(s, y, step)
    ensures SystemInv(s, Apply(s, y, step))
  {
    var pool := y.phase.pool;
    Backup.DrainedHolds(pool, y.store.objects);
    Backup.CommitRestorable(s, pool, y.store.objects, y.store.meta, y.phase.single, step.id, step.version, step.trees,
                            Backup.DirsOf(pool));
    StaleUnneeded(Loaded(y.store.meta), Committed(y, step.id, step.version, step.trees));
  }

  lemma DeleteStep(s: Scheme, y: System, step: Step)
    requires WellFounded(s) && SystemInv(s, y) && step.StartDelete? && Enabled(s, y, step)
    ensures SystemInv(s, Apply(s, y, step))
  {
    var md := Without(y.store.meta.value, step.gone);
    WithoutKeeps(s, y.store.meta.value, y.store.objects, step.gone);
    PruneKeeps(s, md, y.store.objects);
    StaleUnneeded(md.files, Pruned(md));
  }

  lemma GCStep(s: Scheme, y: System, step: Step)
    requires WellFounded(s) && SystemInv(s, y) && step.StartGC? && Enabled(s, y, step)
    ensures SystemInv(s, Apply(s, y, step))
  {
    var md := Pruned(y.store.meta.value);
    PruneKeeps(s, y.store.meta.value, y.store.objects);
    forall n | n in Client.Orphans(md, y.store.objects) ensures Unneeded(md, n) {
      OrphanUnneeded(md, n);
    }
  }

  lemma RemoveStep(s: Scheme, y: System, step: Step)
    requires SystemInv(s, y) && step.Remove? && Enabled(s, y, step)
    ensures SystemInv(s, Apply(s, y, step))
  {
    DeleteKeeps(s, y.store.meta.value, y.store.objects, step.name);
  }

  lemma StepInv(s: Scheme, y: System, step: Step)
    requires CollisionFree(s) && WellFounded(s)
    requires SystemInv(s, y) && Enabled(s, y, step)
    ensures SystemInv(s, Apply(s, y, step))
  {
    match step
    case StartBackup(tasks, seal, workers, _) =>
      Runs.InitPoolInv(tasks, Loaded(y.store.meta), seal, workers, y.store.objects);
    case Work(p) => WorkStep(s, y, p);
    case Commit(_, _, _, _, _) => CommitStep(s, y, step);
    case StartDelete(_, _, _) => DeleteStep(s, y, step);
    case StartGC(_, _) => GCStep(s, y, step);
    case Remove(_, _) => RemoveStep(s, y, step);
    case Stop =>
  }

  // ---- Safety over whole histories ----

  ghost predicate IsHistory(s: Scheme, states: seq<System>, steps: seq<Step>)
  {
    && |states| == |steps| + 1
    && states[0].phase.Quiet?
    && forall i {:trigger steps[i]} | 0 <= i < |steps| ::
         Enabled(s, states[i], steps[i]) && states[i + 1] == Apply(s, states[i], steps[i])
  }

  /** A store begins without .tsync, whatever objects lie in it. */
  ghost predicate Begins(states: seq<System>)
  {
    states != [] && states[0].store.meta.None?
  }

  lemma {:induction false} HistoryInv(s: Scheme, states: seq<System>, steps: seq<Step>, i: nat)
    requires CollisionFree(s) && WellFounded(s) && IsHistory(s, states, steps) && StoreInv(s, states[0].store)
    requires i < |states|
    ensures SystemInv(s, states[i])
  {
    if i > 0 {
      HistoryInv(s, states, steps, i - 1);
      StepInv(s, states[i - 1], steps[i - 1]);
    }
  }

  /** In every reachable state, so wherever a crash hits, every committed version resolves strictly and
      each of its paths leads to a record that names its own key and to the part written for it. */
  lemma EveryVersionRestores(s: Scheme, states: seq<System>, steps: seq<Step>, i: nat, v: VersionId)
    requires CollisionFree(s) && WellFounded(s) && IsHistory(s, states, steps) && Begins(states) && i < |states|
    requires states[i].store.meta.Some? && v in states[i].store.meta.value.versions
    ensures var md, objects := states[i].store.meta.value, states[i].store.objects;
            && ResolveVersion(s, md, v, false).Resolved?
            && forall q | q in ResolveVersion(s, md, v, false).files ::
                 var k := ResolveVersion(s, md, v, false).files[q];
                 k in md.files && RecordKey(md.files[k]) == k && PartIntact(objects, k, md.files[k])
  {
    HistoryInv(s, states, steps, i);
    RestorableRestores(s, states[i].store.meta.value, states[i].store.objects, v);
  }

  // ---- A committed version stays what it was ----

  /** The version resolves alike in both metadata, down to the record of every path. */
  ghost predicate SameVersion(s: Scheme, a: BackupMetadata, b: BackupMetadata, v: VersionId)
    requires WellFounded(s)
  {
    && v in a.versions && v in b.versions
    && ResolveVersion(s, a, v, false).Resolved?
    && ResolveVersion(s, b, v, false) == ResolveVersion(s, a, v, false)
    && forall q | q in ResolveVersion(s, a, v, false).files ::
         var k := ResolveVersion(s, a, v, false).files[q];
         k in a.files && k in b.files && b.files[k] == a.files[k]
  }

  lemma SameVersionChain(s: Scheme, a: BackupMetadata, b: BackupMetadata, c: BackupMetadata, v: VersionId)
    requires WellFounded(s) && SameVersion(s, a, b, v) && SameVersion(s, b, c, v)
    ensures SameVersion(s, a, c, v)
  {
  }

  lemma PrunedSame(s: Scheme, md: BackupMetadata, objects: Objects, v: VersionId)
    requires WellFounded(s) && Restorable(s, md, objects) && v in md.versions
    ensures SameVersion(s, md, Pruned(md), v)
  {
    PruneKeeps(s, md, objects);
    RestorableRestores(s, md, objects, v);
    var files := ResolveVersion(s, md, v, false).files;
    forall q | q in files ensures files[q] in LiveKeys(md) {
      assert ResolvedKey(s, md, files[q]);
      ResolvedKeyLives(s, md, files[q]);
    }
  }

  lemma WithoutSame(s: Scheme, md: BackupMetadata, objects: Objects, id: VersionId, v: VersionId)
    requires WellFounded(s) && Restorable(s, md, objects) && v in md.versions && v != id
    ensures SameVersion(s, md, Pruned(Without(md, id)), v)
  {
    WithoutKeeps(s, md, objects, id);
    RestorableRestores(s, md, objects, v);
    assert ResolveVersion(s, Without(md, id), v, false) == ResolveVersion(s, md, v, false);
    PrunedSame(s, Without(md, id), objects, v);
  }

  lemma CommittedSame(s: Scheme, y: System, id: VersionId, version: Version, trees: Trees, v: VersionId)
    requires CollisionFree(s) && WellFounded(s) && SystemInv(s, y)
    requires CommitReady(s, y, id, version.root, trees)
    requires !y.phase.single && y.store.meta.Some? && v in y.store.meta.value.versions
    ensures SameVersion(s, y.store.meta.value, Committed(y, id, version, trees), v)
  {
    var md, pool := y.store.meta.value, y.phase.pool;
    Backup.DrainedHolds(pool, y.store.objects);
    RestorableRestores(s, md, y.store.objects, v);
    BackupPreserves(s, y.store.objects, md, id, version, trees, Gather.NewFiles(pool.results), v);
  }

  /** Deleting v itself, or replacing everything in single-version mode, is what may end a version. */
  predicate Ends(y: System, step: Step, v: VersionId)
  {
    (step.StartDelete? && step.gone == v) || (step.Commit? && y.phase.Backing? && y.phase.single)
  }

  lemma StepSameVersion(s: Scheme, y: System, step: Step, v: VersionId)
    requires CollisionFree(s) && WellFounded(s) && SystemInv(s, y) && Enabled(s, y, step) && !Ends(y, step, v)
    requires y.store.meta.Some? && v in y.store.meta.value.versions
    ensures Apply(s, y, step).store.meta.Some?
    ensures SameVersion(s, y.store.meta.value, Apply(s, y, step).store.meta.value, v)
  {
    var md := y.store.meta.value;
    RestorableRestores(s, md, y.store.objects, v);
    match step
    case Commit(id, version, trees, _, _) => CommittedSame(s, y, id, version, trees, v);
    case StartDelete(id, _, _) => WithoutSame(s, md, y.store.objects, id, v);
    case StartGC(_, _) => PrunedSame(s, md, y.store.objects, v);
    case _ =>
  }

  /** From its commit on, through every later backup, deletion, collection and crash, a version
      restores the same records under the same paths, and their parts hold exactly those records, until
      it is deleted itself or a single-version backup replaces the store. */
  lemma {:induction false} VersionPersists(s: Scheme, states: seq<System>, steps: seq<Step>, i: nat, j: nat,
                                           v: VersionId)
    requires CollisionFree(s) && WellFounded(s) && IsHistory(s, states, steps) && Begins(states)
    requires i <= j < |states|
    requires states[i].store.meta.Some? && v in states[i].store.meta.value.versions
    requires forall n {:trigger steps[n]} | i <= n < j :: !Ends(states[n], steps[n], v)
    ensures states[j].store.meta.Some?
    ensures SameVersion(s, states[i].store.meta.value, states[j].store.meta.value, v)
    ensures forall q | q in ResolveVersion(s, states[i].store.meta.value, v, false).files ::
              var k := ResolveVersion(s, states[i].store.meta.value, v, false).files[q];
              PartIntact(states[j].store.objects, k, states[i].store.meta.value.files[k])
    decreases j
  {
    EveryVersionRestores(s, states, steps, i, v);
    if i < j {
      VersionPersists(s, states, steps, i, j - 1, v);
      HistoryInv(s, states, steps, j - 1);
      StepSameVersion(s, states[j - 1], steps[j - 1], v);
      SameVersionChain(s, states[i].store.meta.value, states[j - 1].store.meta.value, states[j].store.meta.value, v);
      EveryVersionRestores(s, states, steps, j, v);
    }
  }

  // ---- What a commit adds ----

  /** The part of every record of a that b lacks is among the names. */
  ghost predicate DropsParts(a: map<Key, FileRecord>, b: map<Key, FileRecord>, objects: Objects, names: set<string>)
  {
    forall k | k in a && k !in b && IsValidFileKey(k) && PartKeyFor(k) in objects :: PartKeyFor(k) in names
  }

  /** The run of this commit is in the metadata: the version under its id beside the old ones (alone in
      single-version mode), resolving to exactly the run's entries, with their records. */
  lemma CommitRecords(s: Scheme, y: System, step: Step)
    requires CollisionFree(s) && WellFounded(s) && SystemInv(s, y)
    requires step.Commit? && step.applied && Enabled(s, y, step)
    ensures var md, pool := Apply(s, y, step).store.meta, y.phase.pool;
            && md.Some? && Gather.InRange(pool.tasks, pool.results)
            && Recorded(s, md.value, y.store.meta, y.phase.single, step.id, step.version, pool.tasks, pool.results)
            && ShowsEntries(s, md.value, step.id, pool.tasks, pool.results)
            && (step.reported ==>
                  && Apply(s, y, step).phase.Cleaning?
                  && (y.phase.single ==> DropsParts(Loaded(y.store.meta), md.value.files, y.store.objects,
                                                    Apply(s, y, step).phase.doomed)))
  {
    var pool := y.phase.pool;
    Backup.DrainedHolds(pool, y.store.objects);
    assert RecordsIntact(Loaded(y.store.meta), y.store.objects);
    Backup.NextEntered(s, pool, y.store.objects, y.store.meta, y.phase.single, step.id, step.version, step.trees);
  }

  predicate Commits(step: Step, v: VersionId) { step.Commit? && step.applied && step.id == v }

  ghost predicate Holds(y: System, v: VersionId)
  {
    y.store.meta.Some? && v in y.store.meta.value.versions
  }

  /** Version v of y resolves to exactly the entries of the run that y0 was about to commit. */
  ghost predicate ShowsRun(s: Scheme, y0: System, y: System, v: VersionId)
    requires WellFounded(s)
  {
    && y0.phase.Backing? && Holds(y, v) && Gather.InRange(y0.phase.pool.tasks, y0.phase.pool.results)
    && ShowsEntries(s, y.store.meta.value, v, y0.phase.pool.tasks, y0.phase.pool.results)
  }

  lemma SameShows(s: Scheme, a: BackupMetadata, b: BackupMetadata, v: VersionId,
                  tasks: seq<Pool.Task>, results: seq<Pool.Result>)
    requires WellFounded(s) && SameVersion(s, a, b, v) && Gather.InRange(tasks, results)
    requires ShowsEntries(s, a, v, tasks, results)
    ensures ShowsEntries(s, b, v, tasks, results)
  {
  }

  /** A commit step of a history, and the version in the state it leads to. */
  lemma CommitShown(s: Scheme, states: seq<System>, steps: seq<Step>, i: nat)
    requires CollisionFree(s) && WellFounded(s) && IsHistory(s, states, steps) && Begins(states)
    requires i < |steps| && steps[i].Commit? && steps[i].applied
    ensures ShowsRun(s, states[i], states[i + 1], steps[i].id)
  {
    HistoryInv(s, states, steps, i);
    CommitRecords(s, states[i], steps[i]);
  }

  /** From the commit of a run on, for as long as its version is neither deleted nor replaced, the version
      resolves to exactly the entries of that run: every file under its path with the key of its content,
      every directory nothing else lies in, and nothing more. */
  lemma VersionShowsItsRun(s: Scheme, states: seq<System>, steps: seq<Step>, i: nat, j: nat)
    requires CollisionFree(s) && WellFounded(s) && IsHistory(s, states, steps) && Begins(states)
    requires i < j < |states| && steps[i].Commit? && steps[i].applied
    requires forall n {:trigger steps[n]} | i < n < j :: !Ends(states[n], steps[n], steps[i].id)
    ensures ShowsRun(s, states[i], states[j], steps[i].id)
  {
    var pool, id := states[i].phase.pool, steps[i].id;
    CommitShown(s, states, steps, i);
    VersionPersists(s, states, steps, i + 1, j, id);
    SameShows(s, states[i + 1].store.meta.value, states[j].store.meta.value, id, pool.tasks, pool.results);
  }

  /** A step that does not commit v does not bring it in, and one that may end it has not taken effect. */
  lemma VersionWasThere(s: Scheme, y: System, step: Step, v: VersionId)
    requires Enabled(s, y, step) && !Commits(step, v)
    requires Apply(s, y, step).store.meta.Some? && v in Apply(s, y, step).store.meta.value.versions
    ensures y.store.meta.Some? && v in y.store.meta.value.versions
    ensures Ends(y, step, v) ==> Apply(s, y, step).store.meta == y.store.meta
  {
    if step.Commit? && step.applied {
      NewMetadataAdds(y.store.meta, y.phase.single, step.id, step.version, step.trees,
                      Gather.NewFiles(y.phase.pool.results));
    }
    if step.StartDelete? {
      DeletedExact(y.store.meta.value, step.gone);
    }
  }

  lemma SelfSame(s: Scheme, y: System, v: VersionId)
    requires WellFounded(s) && StoreInv(s, y.store) && y.store.meta.Some? && v in y.store.meta.value.versions
    ensures SameVersion(s, y.store.meta.value, y.store.meta.value, v)
  {
    RestorableRestores(s, y.store.meta.value, y.store.objects, v);
  }

  /** Where a version of the next state comes from: this step committed it, or it was there, and the same. */
  lemma StepOrigin(s: Scheme, y: System, step: Step, v: VersionId)
    requires CollisionFree(s) && WellFounded(s) && SystemInv(s, y) && Enabled(s, y, step) && !Commits(step, v)
    requires Apply(s, y, step).store.meta.Some? && v in Apply(s, y, step).store.meta.value.versions
    ensures y.store.meta.Some? && v in y.store.meta.value.versions
    ensures SameVersion(s, y.store.meta.value, Apply(s, y, step).store.meta.value, v)
  {
    VersionWasThere(s, y, step, v);
    if Ends(y, step, v) {
      SelfSame(s, y, v);
    } else {
      StepSameVersion(s, y, step, v);
    }
  }

  lemma StillShows(s: Scheme, y0: System, y: System, step: Step, v: VersionId, next: System)
    requires CollisionFree(s) && WellFounded(s) && SystemInv(s, y) && Enabled(s, y, step) && !Commits(step, v)
    requires next == Apply(s, y, step) && Holds(next, v)
    ensures Holds(y, v) && (ShowsRun(s, y0, y, v) ==> ShowsRun(s, y0, next, v))
  {
    StepOrigin(s, y, step, v);
    if ShowsRun(s, y0, y, v) {
      SameShows(s, y.store.meta.value, next.store.meta.value, v, y0.phase.pool.tasks, y0.phase.pool.results);
    }
  }

  /** No version appears from nowhere: in every reachable state each version is the work of an earlier
      committed run, and resolves to exactly the entries of that run. */
  lemma {:induction false} EveryVersionIsARun(s: Scheme, states: seq<System>, steps: seq<Step>, j: nat, v: VersionId)
    returns (i: nat)
    requires CollisionFree(s) && WellFounded(s) && IsHistory(s, states, steps) && Begins(states) && j < |states|
    requires Holds(states[j], v)
    ensures i < j && Commits(steps[i], v) && ShowsRun(s, states[i], states[j], v)
  {
    i := j - 1;
    if Commits(steps[i], v) {
      CommitShown(s, states, steps, i);
    } else {
      HistoryInv(s, states, steps, i);
      StillShows(s, states[i], states[i], steps[i], v, states[j]);
      var k := EveryVersionIsARun(s, states, steps, i, v);
      StillShows(s, states[k], states[i], steps[i], v, states[j]);
      i := k;
    }
  }

  // ---- What a deletion or a collection takes away ----

  /** An applied deletion takes one version out, a collection none; both leave exactly the trees and records
      that some version still reaches, and go on to delete the parts of the others. */
  lemma PrunedAfter(s: Scheme, y: System, step: Step)
    requires CollisionFree(s) && WellFounded(s) && SystemInv(s, y) && Enabled(s, y, step)
    requires (step.StartDelete? || step.StartGC?) && step.applied
    ensures Apply(s, y, step).store.meta.Some?
    ensures var before, after := y.store.meta.value, Apply(s, y, step).store.meta.value;
            && (if step.StartDelete? then DropsVersion(before.versions, after.versions, step.gone)
                else after.versions == before.versions)
            && after.trees.Keys == LiveTrees(after) && after.files.Keys == LiveKeys(after)
            && (step.reported ==>
                  && Apply(s, y, step).phase.Cleaning?
                  && DropsParts(before.files, after.files, y.store.objects, Apply(s, y, step).phase.doomed))
  {
    var md, objects := y.store.meta.value, y.store.objects;
    if step.StartDelete? {
      DeletedExact(md, step.gone);
      WithoutKeeps(s, md, objects, step.gone);
      PruneExact(s, Without(md, step.gone), objects);
    } else {
      PruneExact(s, md, objects);
      forall k | k in md.files && k !in Pruned(md).files && IsValidFileKey(k) && PartKeyFor(k) in objects
        ensures PartKeyFor(k) in Client.Orphans(Pruned(md), objects)
      {
        PartKeyShape(k);
      }
    }
  }

  // ---- All or nothing ----

  predicate Uncommitted(step: Step)
  {
    step.StartBackup? || step.Work? || step.Stop?
  }

  /** The object under the part name of k is there, and the same, in both. */
  predicate SamePart(before: Objects, after: Objects, k: Key)
  {
    |k| >= 2 && PartKeyFor(k) in before && PartKeyFor(k) in after && after[PartKeyFor(k)] == before[PartKeyFor(k)]
  }

  lemma UncommittedMeta(s: Scheme, y: System, step: Step)
    requires Enabled(s, y, step) && Uncommitted(step)
    ensures Apply(s, y, step).store.meta == y.store.meta
  {
  }

  lemma UncommittedStep(s: Scheme, y: System, step: Step, k: Key)
    requires SystemInv(s, y) && Enabled(s, y, step) && Uncommitted(step) && k in Loaded(y.store.meta)
    ensures SamePart(y.store.objects, Apply(s, y, step).store.objects, k)
  {
    assert PartIntact(y.store.objects, k, Loaded(y.store.meta)[k]);
    if step.Work? {
      WorkKeepsPart(y.phase.pool, y.store.objects, step.step, k, Loaded(y.store.meta)[k]);
    }
  }

  /** From any state, through any number of backup starts, worker steps, failures and crashes, up to the
      commit of some run (or the next deletion or collection): the metadata is unchanged, and so is the
      part of every record in it, so every version still resolves and restores as it did. */
  lemma {:induction false} UncommittedChangesNothing(s: Scheme, states: seq<System>, steps: seq<Step>, i: nat, j: nat)
    requires CollisionFree(s) && WellFounded(s) && IsHistory(s, states, steps) && Begins(states)
    requires i <= j < |states| && forall n {:trigger steps[n]} | i <= n < j :: Uncommitted(steps[n])
    ensures states[j].store.meta == states[i].store.meta
    ensures forall k | k in Loaded(states[i].store.meta) ::
              SamePart(states[i].store.objects, states[j].store.objects, k)
    decreases j
  {
    HistoryInv(s, states, steps, j);
    HistoryInv(s, states, steps, i);
    if i < j {
      UncommittedChangesNothing(s, states, steps, i, j - 1);
      HistoryInv(s, states, steps, j - 1);
      forall k | k in Loaded(states[i].store.meta)
        ensures SamePart(states[i].store.objects, states[j].store.objects, k)
      {
        UncommittedStep(s, states[j - 1], steps[j - 1], k);
      }
      UncommittedMeta(s, states[j - 1], steps[j - 1]);
    }
  }

  /** The commit step can only be taken when every entry has its one successful result, and each new
      record's part is committed. */
  lemma CommitMeansAllStored(s: Scheme, y: System, step: Step, t: nat) returns (i: nat)
    requires SystemInv(s, y) && step.Commit? && Enabled(s, y, step) && t < |y.phase.pool.tasks|
    ensures var pool := y.phase.pool;
            && i < |pool.results| && pool.results[i].task == t && !pool.results[i].Failed?
            && (forall j | 0 <= j < |pool.results| && pool.results[j].task == t :: j == i)
            && (pool.results[i].IsDir? <==> pool.tasks[t].DirTask?)
            && (pool.results[i].Stored? ==>
                  && Pool.KeyOf(pool.tasks[t], pool.results[i].key)
                  && (pool.tasks[t].raw || pool.tasks[t].crc32 != 0 || pool.tasks[t].size == 0 ==>
                        pool.results[i].key == FileKeyFor(pool.tasks[t].crc32, pool.tasks[t].size)))
            && (pool.results[i].Stored? ==>
                  var k, rec := pool.results[i].key, pool.results[i].record;
                  RecordKey(rec) == k && PartIntact(y.store.objects, k, rec))
  {
    i := Runs.EveryTaskAnswered(y.phase.pool, y.store.objects, t);
    Runs.CompleteMeansStored(y.phase.pool, y.store.objects);
    if y.phase.pool.results[i].Stored? && y.phase.pool.results[i].key in Loaded(y.store.meta) {
      assert RecordsIntact(Loaded(y.store.meta), y.store.objects);
    }
  }
}
