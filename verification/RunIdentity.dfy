/** The identity of a whole run: two complete runs over the same entries get the same root hash, whatever
    order the workers finished in (tsync/backup.go RunBackup, from the gather loop to buildAndHash). */
module RunIdentity {
  import opened Base
  import opened Names
  import opened Keys
  import opened Metadata
  import opened TempTree
  import opened Objects
  import opened Store
  import opened UploadPool
  import opened Gather
  import opened Backup
  import Lifecycle
  import Runs = UploadPoolRuns

  /** A drained, complete run over a store whose old records are intact. */
  ghost predicate Finished(st: State, objects: Objects)
  {
    && Runs.PoolInv(st, objects) && Final(st) && RunError(st).Complete? && RecordsIntact(st.existing, objects)
  }

  /** Entries whose key is computed from their content were found with the same content. */
  ghost predicate SameKeys(a: seq<Result>, b: seq<Result>)
  {
    forall i, j | 0 <= i < |a| && 0 <= j < |b| && a[i].Stored? && b[j].Stored? && a[i].task == b[j].task ::
        a[i].key == b[j].key
  }

  lemma SameKeysBack(a: seq<Result>, b: seq<Result>)
    requires SameKeys(a, b)
    ensures SameKeys(b, a)
  {
  }

  /** The other run has a result for the same entry, of the same kind. */
  lemma Partner(st: State, objects: Objects, other: State, objects': Objects, i: nat) returns (j: nat)
    requires Finished(st, objects) && Finished(other, objects') && st.tasks == other.tasks && i < |st.results|
    ensures j < |other.results| && other.results[j].task == st.results[i].task
    ensures st.results[i].Stored? <==> other.results[j].Stored?
    ensures st.results[i].IsDir? <==> other.results[j].IsDir?
  {
    Runs.CompleteMeansStored(st, objects);
    Runs.CompleteMeansStored(other, objects');
    ResultsInRange(st, objects);
    ResultsInRange(other, objects');
    assert st.results[i].task < |st.tasks|;
    j := Runs.EveryTaskAnswered(other, objects', st.results[i].task);
    assert !st.results[i].Failed? && !other.results[j].Failed?;
  }

  lemma NoConflictCarries(st: State, objects: Objects, other: State, objects': Objects)
    requires Finished(st, objects) && Finished(other, objects') && st.tasks == other.tasks
    requires NoConflict(st.tasks, st.results) && SameKeys(st.results, other.results)
    ensures NoConflict(other.tasks, other.results)
  {
    forall i, j | 0 <= i < |other.results| && 0 <= j < |other.results|
      ensures !Conflict(other.tasks, other.results[i], other.results[j])
    {
      if other.results[i].Stored? && other.results[j].Stored? {
        var k := Partner(other, objects', st, objects, i);
        var l := Partner(other, objects', st, objects, j);
        assert !Conflict(st.tasks, st.results[k], st.results[l]);
      }
    }
  }

  lemma PathCarries(st: State, objects: Objects, other: State, objects': Objects, p: string)
    requires Finished(st, objects) && Finished(other, objects') && st.tasks == other.tasks
    requires NoConflict(other.tasks, other.results) && SameKeys(st.results, other.results)
    requires InRange(st.tasks, st.results) && InRange(other.tasks, other.results) && p in PathsOf(st)
    ensures p in PathsOf(other) && PathsOf(other)[p] == PathsOf(st)[p]
  {
    var i := PathKeysOnly(st.tasks, st.results, p);
    var j := Partner(st, objects, other, objects', i);
    PathKeysHolds(other.tasks, other.results, j);
  }

  lemma SamePaths(st: State, objects: Objects, other: State, objects': Objects)
    requires Finished(st, objects) && Finished(other, objects') && st.tasks == other.tasks
    requires NoConflict(st.tasks, st.results) && SameKeys(st.results, other.results)
    ensures InRange(st.tasks, st.results) && InRange(other.tasks, other.results)
    ensures PathsOf(st) == PathsOf(other)
  {
    ResultsInRange(st, objects);
    ResultsInRange(other, objects');
    NoConflictCarries(st, objects, other, objects');
    SameKeysBack(st.results, other.results);
    forall p | p in PathsOf(st) ensures p in PathsOf(other) && PathsOf(other)[p] == PathsOf(st)[p] {
      PathCarries(st, objects, other, objects', p);
    }
    forall p | p in PathsOf(other) ensures p in PathsOf(st) {
      PathCarries(other, objects', st, objects, p);
    }
  }

  lemma DirCarries(st: State, objects: Objects, other: State, objects': Objects, d: string)
    requires Finished(st, objects) && Finished(other, objects') && st.tasks == other.tasks
    requires InRange(st.tasks, st.results) && InRange(other.tasks, other.results)
    requires d in DirPaths(st.tasks, st.results)
    ensures d in DirPaths(other.tasks, other.results)
  {
    var i :| 0 <= i < |st.results| && st.results[i].IsDir? && TrimSlash(st.tasks[st.results[i].task].path) == d;
    var j := Partner(st, objects, other, objects', i);
    assert other.results[j].IsDir?;
  }

  lemma SameDirs(st: State, objects: Objects, other: State, objects': Objects)
    requires Finished(st, objects) && Finished(other, objects') && st.tasks == other.tasks
    requires InRange(st.tasks, st.results) && InRange(other.tasks, other.results)
    ensures DirsOf(st) == DirsOf(other)
  {
    forall d ensures d in DirPaths(st.tasks, st.results) <==> d in DirPaths(other.tasks, other.results) {
      if d in DirPaths(st.tasks, st.results) { DirCarries(st, objects, other, objects', d); }
      if d in DirPaths(other.tasks, other.results) { DirCarries(other, objects', st, objects, d); }
    }
    assert DirPaths(st.tasks, st.results) == DirPaths(other.tasks, other.results);
  }

  /** Leaves carry checksum and size only, and a record's own key fixes both. */
  lemma SameLeaves(paths: map<string, Key>, a: map<Key, FileRecord>, b: map<Key, FileRecord>)
    requires KeysKnown(paths, a) && KeysKnown(paths, b)
    requires forall k | k in a :: RecordKey(a[k]) == k
    requires forall k | k in b :: RecordKey(b[k]) == k
    ensures TreeFiles(paths, a) == TreeFiles(paths, b)
  {
    forall q | q in TreeFiles(paths, a)
      ensures q in TreeFiles(paths, b) && TreeFiles(paths, b)[q] == TreeFiles(paths, a)[q]
    {
      TreeFilesFrom(paths, a, q);
      var k := paths[Join(q)];
      assert RecordKey(a[k]) == k && RecordKey(b[k]) == k;
      FileKeyInjective(a[k].crc32, a[k].size, b[k].crc32, b[k].size);
    }
  }

  lemma SameFiles(st: State, objects: Objects, other: State, objects': Objects)
    requires Finished(st, objects) && Finished(other, objects') && st.tasks == other.tasks
    requires NoConflict(st.tasks, st.results) && SameKeys(st.results, other.results)
    requires Drained(st, objects) && Drained(other, objects')
    ensures FilesOf(st) == FilesOf(other)
  {
    SamePaths(st, objects, other, objects');
    SameLeaves(PathsOf(st), NewFiles(st.results), NewFiles(other.results));
  }

  /** Two complete runs over the same entries, of any stores, with any number of workers and in any
      interleaving, commit the same root hash, unless two entries claim one path with different content. */
  lemma RootIgnoresOrder(s: Scheme, st: State, objects: Objects, trees: Trees, root: Hash,
                         other: State, objects': Objects, trees': Trees, root': Hash)
    requires CollisionFree(s) && WellFounded(s)
    requires Finished(st, objects) && Finished(other, objects') && st.tasks == other.tasks
    requires NoConflict(st.tasks, st.results) && SameKeys(st.results, other.results)
    requires Drained(st, objects) && Represents(s, trees, root, FilesOf(st), DirsOf(st))
    requires Drained(other, objects') && Represents(s, trees', root', FilesOf(other), DirsOf(other))
    ensures root == root'
  {
    SameFiles(st, objects, other, objects');
    SameDirs(st, objects, other, objects');
    RootIsIdentity(s, trees, root, FilesOf(st), DirsOf(st), trees', root', FilesOf(other), DirsOf(other));
  }

  lemma {:induction false} RunKeepsRecords(tasks: seq<Task>, e: map<Key, FileRecord>, seal: Seal, n: nat,
                                           run: seq<(State, Objects)>, steps: seq<Step>, i: nat)
    requires Runs.IsPoolRun(tasks, e, seal, n, run, steps) && i < |run| && RecordsIntact(e, run[0].1)
    ensures RecordsIntact(e, run[i].1)
  {
    if i > 0 {
      RunKeepsRecords(tasks, e, seal, n, run, steps, i - 1);
      Runs.RunPoolInv(tasks, e, seal, n, run, steps, i - 1);
      forall k | k in e ensures PartIntact(run[i].1, k, e[k]) {
        Lifecycle.WorkKeepsPart(run[i - 1].0, run[i - 1].1, steps[i - 1], k, e[k]);
      }
    }
  }

  /** The same, said of runs from their start; that the results can be gathered is part of what a run
      delivers. */
  lemma RunsAgree(s: Scheme, tasks: seq<Task>,
                  e: map<Key, FileRecord>, seal: Seal, n: nat, run: seq<(State, Objects)>, steps: seq<Step>,
                  e': map<Key, FileRecord>, seal': Seal, n': nat, run': seq<(State, Objects)>, steps': seq<Step>)
    requires CollisionFree(s) && WellFounded(s)
    requires Runs.IsPoolRun(tasks, e, seal, n, run, steps) && Runs.IsPoolRun(tasks, e', seal', n', run', steps')
    requires Final(run[|steps|].0) && RunError(run[|steps|].0).Complete? && RecordsIntact(e, run[0].1)
    requires Final(run'[|steps'|].0) && RunError(run'[|steps'|].0).Complete? && RecordsIntact(e', run'[0].1)
    requires NoConflict(tasks, run[|steps|].0.results)
    requires SameKeys(run[|steps|].0.results, run'[|steps'|].0.results)
    ensures var st, other := run[|steps|].0, run'[|steps'|].0;
            && Drained(st, run[|steps|].1) && Drained(other, run'[|steps'|].1)
            && forall trees, root, trees', root' | Represents(s, trees, root, FilesOf(st), DirsOf(st))
                 && Represents(s, trees', root', FilesOf(other), DirsOf(other)) :: root == root'
  {
    var st, objects := run[|steps|].0, run[|steps|].1;
    var other, objects' := run'[|steps'|].0, run'[|steps'|].1;
    Runs.RunPoolInv(tasks, e, seal, n, run, steps, |steps|);
    Runs.RunPoolInv(tasks, e', seal', n', run', steps', |steps'|);
    RunKeepsRecords(tasks, e, seal, n, run, steps, |steps|);
    RunKeepsRecords(tasks, e', seal', n', run', steps', |steps'|);
    DrainedHolds(st, objects);
    DrainedHolds(other, objects');
    forall trees, root, trees', root' | Represents(s, trees, root, FilesOf(st), DirsOf(st))
        && Represents(s, trees', root', FilesOf(other), DirsOf(other))
      ensures root == root'
    {
      RootIgnoresOrder(s, st, objects, trees, root, other, objects', trees', root');
    }
  }
}
