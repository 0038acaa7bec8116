/** RunBackup after the workers have exited (tsync/backup.go): build the tree, commit, clean up. */
module Backup {
  import opened Base
  import opened Names
  import opened Keys
  import opened Metadata
  import opened Gather
  import opened Snapshot
  import opened TempTree
  import opened Objects
  import opened Store
  import opened UploadPool
  import Proofs = UploadPoolProofs
  import Runs = UploadPoolRuns
  import Client

  // ---- Commit ----

  lemma ResultsInRange(st: State, objects: Objects)
    requires Runs.PoolInv(st, objects)
    ensures InRange(st.tasks, st.results)
    ensures forall i | 0 <= i < |st.results| && st.results[i].Stored? :: st.tasks[st.results[i].task].FileTask?
    ensures forall i | 0 <= i < |st.results| && st.results[i].IsDir? :: st.tasks[st.results[i].task].DirTask?
  {
    forall i | 0 <= i < |st.results|
      ensures st.results[i].task < |st.tasks|
      ensures st.results[i].Stored? ==> st.tasks[st.results[i].task].FileTask?
      ensures st.results[i].IsDir? ==> st.tasks[st.results[i].task].DirTask?
    {
      assert Proofs.ResultOk(st, st.results[i]);
    }
  }

  /** Old keys whose parts single-version mode deletes. */
  function StaleParts(loaded: map<Key, FileRecord>, kept: map<Key, FileRecord>): set<string>
  {
    Client.DeadParts(loaded.Keys - kept.Keys)
  }

  /** Step 10: best effort; what the new metadata still uses and malformed keys are skipped. */
  method RemoveStale(s: Scheme, store: Client.Storage, md: BackupMetadata, loaded: map<Key, FileRecord>, ghost n: nat)
    requires store.meta == Some(md) && n <= |store.log|
    modifies store
    ensures store.meta == Some(md)
    ensures Client.Cleanup(s, md, StaleParts(loaded, md.files), n,
                           old(store.objects), old(store.log), store.objects, store.log)
    ensures forall m | m in StaleParts(loaded, md.files) && m in store.objects :: m in store.refused
  {
    ghost var doomed := StaleParts(loaded, md.files);
    var todo := loaded.Keys;
    while todo != {}
      invariant todo <= loaded.Keys && store.meta == Some(md)
      invariant Client.Cleanup(s, md, doomed, n, old(store.objects), old(store.log), store.objects, store.log)
      invariant forall k | k in loaded && k !in todo && k !in md.files && IsValidFileKey(k)
                && PartKeyFor(k) in store.objects ::
                  PartKeyFor(k) in store.refused
      decreases todo
    {
      var k :| k in todo;
      if k !in md.files {
        assert IsValidFileKey(k) ==> PartKeyFor(k) in doomed;
        Client.RemovePart(s, store, md, k, doomed, n, old(store.objects), old(store.log));
      }
      todo := todo - {k};
    }
  }

  datatype Outcome = Committed(root: Hash) | RunFailed | PathCollision | WriteFailed

  function PathsOf(st: State): map<string, Key>
    requires InRange(st.tasks, st.results)
  {
    PathKeys(st.tasks, st.results)
  }

  /** The files of the new version, by path, and the directories that were listed. */
  function FilesOf(st: State): map<Path, FileLeaf>
    requires InRange(st.tasks, st.results) && KeysKnown(PathsOf(st), NewFiles(st.results))
  {
    TreeFiles(PathsOf(st), NewFiles(st.results))
  }

  function DirsOf(st: State): set<Path>
    requires InRange(st.tasks, st.results)
  {
    TreeDirs(DirPaths(st.tasks, st.results))
  }

  /** What the drained pool hands to the rest of RunBackup. */
  ghost predicate Drained(st: State, objects: Objects)
  {
    && InRange(st.tasks, st.results) && KeysKnown(PathsOf(st), NewFiles(st.results))
    && (forall i | 0 <= i < |st.results| && st.results[i].Stored? :: st.tasks[st.results[i].task].FileTask?)
    && (forall i | 0 <= i < |st.results| && st.results[i].IsDir? :: st.tasks[st.results[i].task].DirTask?)
    && (RunError(st).Complete? <==>
         st.cause.None? && (forall i | 0 <= i < |st.results| :: !st.results[i].Failed?) && |st.results| == |st.tasks|)
    && (RunError(st).Complete? && RecordsIntact(st.existing, objects) ==>
          RecordsIntact(NewFiles(st.results), objects)
          && forall k | k in NewFiles(st.results) && k in st.existing :: NewFiles(st.results)[k] == st.existing[k])
    && (RunError(st).Complete? && OwnKeys(st.existing) ==> OwnKeys(NewFiles(st.results)))
  }

  /** Every run of the pool hands over just that. */
  lemma DrainedHolds(st: State, objects: Objects)
    requires Runs.PoolInv(st, objects) && Final(st)
    ensures Drained(st, objects)
  {
    ResultsInRange(st, objects);
    GatheredKeys(st.tasks, st.results);
    Runs.CompleteMeansStored(st, objects);
    Runs.FinalCounts(st, objects);
    if RunError(st).Complete? && RecordsIntact(st.existing, objects) {
      GatheredIntact(st, st.existing, objects);
    }
    if RunError(st).Complete? && OwnKeys(st.existing) {
      forall k | k in NewFiles(st.results) ensures RecordKey(NewFiles(st.results)[k]) == k {
        var i := GatheredFile(st.results, k);
      }
    }
  }

  lemma CommitRestorable(s: Scheme, st: State, objects: Objects, loaded: Option<BackupMetadata>, single: bool,
                         id: VersionId, v: Version, trees: Trees, dirs: set<Path>)
    requires CollisionFree(s) && WellFounded(s) && Drained(st, objects) && RunError(st).Complete?
    requires st.existing == (if loaded.Some? then loaded.value.files else map[])
    requires StoreInv(s, StoreState(loaded, objects))
    requires Represents(s, trees, v.root, FilesOf(st), dirs)
    ensures Restorable(s, NewMetadata(loaded, single, id, v, trees, NewFiles(st.results)), objects)
  {
    assert RecordsIntact(st.existing, objects);
    TreeLeafKeys(PathsOf(st), NewFiles(st.results));
    TreeCovered(s, trees, v.root, FilesOf(st), dirs, NewFiles(st.results));
    CommitKeeps(s, objects, loaded, single, id, v, trees, NewFiles(st.results));
  }

  /** Steps 6 and the tree building: nothing is written yet. */
  method Prepare(s: Scheme, st: State, ghost objects: Objects)
    returns (r: Outcome, trees: Trees, files: map<Key, FileRecord>)
    requires CollisionFree(s) && Drained(st, objects)
    requires forall t | 0 <= t < |st.tasks| :: ValidTask(st.tasks[t])
    ensures !r.WriteFailed?
    ensures r.RunFailed? <==> !RunError(st).Complete?
    ensures r.PathCollision? <==> RunError(st).Complete? && Clash(st.tasks, st.results)
    ensures r.Committed? ==> files == NewFiles(st.results) && Represents(s, trees, r.root, FilesOf(st), DirsOf(st))
  {
    var paths, gathered, dirs, firstErr, done := GatherResults(st.tasks, st.results);
    var cause := if st.cause.None? then firstErr else st.cause;
    if cause.Some? || done != |st.tasks| {
      return RunFailed, map[], map[];
    }
    GatheredPathsValid(st.tasks, st.results);
    forall q | q in TreeFiles(paths, gathered) ensures ValidPath(q) && q != [] {
      TreeFilesFrom(paths, gathered, q);
    }
    CollidesIffClash(st.tasks, st.results);
    var root, built := BuildTree(s, TreeFiles(paths, gathered), TreeDirs(dirs));
    if root.None? {
      return PathCollision, map[], map[];
    }
    return Committed(root.value), built, gathered;
  }

  lemma SameStale(loaded: Option<BackupMetadata>, single: bool, id: VersionId, v: Version, trees: Trees,
                  files: map<Key, FileRecord>)
    ensures var replaced := if single && loaded.Some? then loaded.value.files else map[];
            StaleParts(replaced, NewMetadata(loaded, single, id, v, trees, files).files) == StaleParts(replaced, files)
  {
    assert map[] + files == files;
  }

  /** The metadata a complete run writes. */
  function Next(st: State, loaded: Option<BackupMetadata>, single: bool, id: VersionId, v: Version,
                trees: Trees): BackupMetadata
  {
    NewMetadata(loaded, single, id, v, trees, NewFiles(st.results))
  }

  /** The run is in the metadata: its tree, and what anyone who reads the metadata sees of its entries. */
  ghost predicate Entered(s: Scheme, st: State, loaded: Option<BackupMetadata>, single: bool, id: VersionId,
                          v: Version, trees: Trees, meta: Option<BackupMetadata>)
    requires WellFounded(s) && InRange(st.tasks, st.results) && KeysKnown(PathsOf(st), NewFiles(st.results))
  {
    && meta == Some(Next(st, loaded, single, id, v, trees))
    && Represents(s, trees, v.root, FilesOf(st), DirsOf(st))
    && Recorded(s, meta.value, loaded, single, id, v, st.tasks, st.results)
  }

  lemma NextEntered(s: Scheme, st: State, objects: Objects, loaded: Option<BackupMetadata>, single: bool,
                    id: VersionId, v: Version, trees: Trees)
    requires CollisionFree(s) && WellFounded(s) && Drained(st, objects) && RunError(st).Complete?
    requires st.existing == (if loaded.Some? then loaded.value.files else map[])
    requires forall t | 0 <= t < |st.tasks| :: ValidTask(st.tasks[t])
    requires Represents(s, trees, v.root, FilesOf(st), DirsOf(st))
    ensures var md := Next(st, loaded, single, id, v, trees);
            && Entered(s, st, loaded, single, id, v, trees, Some(md))
            && (StoreInv(s, StoreState(loaded, objects)) ==> Restorable(s, md, objects))
  {
    NextRecords(s, loaded, single, id, v, trees, st.tasks, st.results);
    if StoreInv(s, StoreState(loaded, objects)) {
      CommitRestorable(s, st, objects, loaded, single, id, v, trees, DirsOf(st));
    }
  }

  /** The metadata changes in one write, with every object still in place; later calls leave it alone. */
  ghost predicate OneWrite(before: Objects, log0: seq<StoreState>, log: seq<StoreState>, md: BackupMetadata)
  {
    && log0 < log && log[|log0|] == StoreState(Some(md), before)
    && forall i | |log0| <= i < |log| :: log[i].meta == Some(md)
  }

  /** Of the objects only the doomed ones went, and those that are still there were refused. */
  ghost predicate Swept(before: Objects, after: Objects, refused: set<string>, doomed: set<string>)
  {
    Client.OnlyRemoved(before, after, doomed) && forall m | m in doomed && m in after :: m in refused
  }

  /** Steps 6 to 10 of RunBackup. `st` is the drained pool, `loaded` the metadata read at the start. */
  method FinishBackup(s: Scheme, store: Client.Storage, st: State, loaded: Option<BackupMetadata>,
                      single: bool, id: VersionId, comment: string)
    returns (r: Outcome, ghost trees: Trees)
    requires CollisionFree(s) && WellFounded(s)
    requires store.meta == loaded && st.existing == (if loaded.Some? then loaded.value.files else map[])
    requires Drained(st, store.objects)
    requires forall t | 0 <= t < |st.tasks| :: ValidTask(st.tasks[t])
    modifies store
    ensures r.RunFailed? <==> !RunError(st).Complete?
    ensures r.PathCollision? <==> RunError(st).Complete? && Clash(st.tasks, st.results)
    ensures r.RunFailed? || r.PathCollision? ==> store.Now() == old(store.Now()) && store.log == old(store.log)
    ensures r.WriteFailed? ==>
              && old(store.failures) < store.failures
              && store.objects == old(store.objects) && store.log == old(store.log) + [store.Now()]
              && (store.meta == loaded ||
                  exists root :: Entered(s, st, loaded, single, id, Version(root, comment), trees, store.meta))
    ensures r.Committed? ==>
              && Entered(s, st, loaded, single, id, Version(r.root, comment), trees, store.meta)
              && OneWrite(old(store.objects), old(store.log), store.log, store.meta.value)
              && Swept(old(store.objects), store.objects, store.refused,
                       StaleParts(if single && loaded.Some? then loaded.value.files else map[], NewFiles(st.results)))
    ensures StoreInv(s, old(store.Now())) ==> Client.InvSince(s, store.log, |old(store.log)|)
  {
    var files;
    ghost var objects := store.objects;
    var built;
    r, built, files := Prepare(s, st, objects);
    trees := built;
    if !r.Committed? {
      return;
    }
    var v := Version(r.root, comment);
    var md := NewMetadata(loaded, single, id, v, built, files);
    NextEntered(s, st, objects, loaded, single, id, v, built);
    var replaced := if single && loaded.Some? then loaded.value.files else map[];
    var ok := CommitAndClean(s, store, md, replaced);
    SameStale(loaded, single, id, v, built, files);
    if !ok {
      r := WriteFailed;
    }
  }

  /** The one .tsync write, then the best-effort deletions. */
  method CommitAndClean(s: Scheme, store: Client.Storage, md: BackupMetadata, replaced: map<Key, FileRecord>)
    returns (ok: bool)
    modifies store
    ensures ok ==>
              && store.meta == Some(md) && OneWrite(old(store.objects), old(store.log), store.log, md)
              && Swept(old(store.objects), store.objects, store.refused, StaleParts(replaced, md.files))
    ensures !ok ==>
              && old(store.failures) < store.failures
              && store.objects == old(store.objects) && store.log == old(store.log) + [store.Now()]
              && (store.meta == old(store.meta) || store.meta == Some(md))
    ensures StoreInv(s, old(store.Now())) && Restorable(s, md, old(store.objects)) ==>
              Client.InvSince(s, store.log, |old(store.log)|)
  {
    store.refused := {};
    ghost var n := |store.log|;
    ok := Client.Save(s, store, md);
    if ok {
      RemoveStale(s, store, md, replaced, n);
    }
  }
}
