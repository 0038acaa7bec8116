/** What the workers' results add up to (tsync/backup.go RunBackup): the gather loop, and the files and
    directories of the new version. */
module Gather {
  import opened Base
  import opened Names
  import opened Keys
  import opened Metadata
  import opened Resolve
  import opened TempTree
  import opened Objects
  import opened Store
  import opened UploadPool
  import Runs = UploadPoolRuns
  import opened Counting

  function TrimSlash(path: string): string
  {
    if path != "" && path[|path| - 1] == '/' then path[..|path| - 1] else path
  }

  /** Entries were validated component by component before the workers started. */
  predicate ValidTask(t: Task)
  {
    ValidPath(Split(if t.DirTask? then TrimSlash(t.path) else t.path))
  }

  // ---- What the gather loop builds, as functions of the results in arrival order ----

  function PathKeys(tasks: seq<Task>, results: seq<Result>): map<string, Key>
    requires forall i | 0 <= i < |results| :: results[i].task < |tasks|
  {
    if results == [] then map[]
    else
      var last := results[|results| - 1];
      var m := PathKeys(tasks, results[..|results| - 1]);
      if last.Stored? then m[tasks[last.task].path := last.key] else m
  }

  function NewFiles(results: seq<Result>): map<Key, FileRecord>
  {
    if results == [] then map[]
    else
      var last := results[|results| - 1];
      var m := NewFiles(results[..|results| - 1]);
      if last.Stored? then m[last.key := last.record] else m
  }

  function DirPaths(tasks: seq<Task>, results: seq<Result>): set<string>
    requires forall i | 0 <= i < |results| :: results[i].task < |tasks|
  {
    set i | 0 <= i < |results| && results[i].IsDir? :: TrimSlash(tasks[results[i].task].path)
  }

  /** The gather loop: after the first error it only drains. */
  method GatherResults(tasks: seq<Task>, results: seq<Result>)
    returns (paths: map<string, Key>, files: map<Key, FileRecord>, dirs: set<string>, firstErr: Option<Err>, done: nat)
    requires forall i | 0 <= i < |results| :: results[i].task < |tasks|
    ensures firstErr.Some? <==> exists i :: 0 <= i < |results| && results[i].Failed?
    ensures firstErr.Some? ==> exists i :: 0 <= i < |results| && results[i] == Failed(results[i].task, firstErr.value)
                                           && forall j | 0 <= j < i :: !results[j].Failed?
    ensures firstErr.None? ==>
              && paths == PathKeys(tasks, results) && files == NewFiles(results) && dirs == DirPaths(tasks, results)
              && done == |results|
  {
    paths, files, dirs, firstErr, done := map[], map[], {}, None, 0;
    var i := 0;
    while i < |results|
      invariant 0 <= i <= |results|
      invariant firstErr.None? ==> forall j | 0 <= j < i :: !results[j].Failed?
      invariant firstErr.Some? ==> exists j :: 0 <= j < i && results[j] == Failed(results[j].task, firstErr.value)
                                               && forall l | 0 <= l < j :: !results[l].Failed?
      invariant firstErr.None? ==> paths == PathKeys(tasks, results[..i]) && files == NewFiles(results[..i])
                                   && dirs == DirPaths(tasks, results[..i]) && done == i
    {
      var res := results[i];
      assert results[..i + 1][..i] == results[..i];
      if res.Failed? {
        if firstErr.None? {
          firstErr := Some(res.err);
        }
      } else if firstErr.None? {
        if res.IsDir? {
          dirs := dirs + {TrimSlash(tasks[res.task].path)};
          assert dirs == DirPaths(tasks, results[..i + 1]);
        } else {
          paths := paths[tasks[res.task].path := res.key];
          files := files[res.key := res.record];
          assert DirPaths(tasks, results[..i]) == DirPaths(tasks, results[..i + 1]);
        }
        done := done + 1;
      }
      i := i + 1;
    }
    assert results[..i] == results;
  }

  // ---- Independence of the completion order ----

  /** Two entries claim one path with different content. */
  ghost predicate Conflict(tasks: seq<Task>, a: Result, b: Result)
  {
    && a.Stored? && b.Stored? && a.task < |tasks| && b.task < |tasks|
    && tasks[a.task].path == tasks[b.task].path && a.key != b.key
  }

  predicate InRange(tasks: seq<Task>, results: seq<Result>)
  {
    forall i | 0 <= i < |results| :: results[i].task < |tasks|
  }

  ghost predicate NoConflict(tasks: seq<Task>, results: seq<Result>)
  {
    forall i, j | 0 <= i < |results| && 0 <= j < |results| :: !Conflict(tasks, results[i], results[j])
  }

  lemma {:induction false} PathKeysHolds(tasks: seq<Task>, results: seq<Result>, i: nat)
    requires InRange(tasks, results) && NoConflict(tasks, results) && i < |results| && results[i].Stored?
    ensures tasks[results[i].task].path in PathKeys(tasks, results)
    ensures PathKeys(tasks, results)[tasks[results[i].task].path] == results[i].key
  {
    var n := |results| - 1;
    var front := results[..n];
    assert forall j | 0 <= j < n :: front[j] == results[j];
    if i < n {
      PathKeysHolds(tasks, front, i);
      assert !Conflict(tasks, results[i], results[n]);
    }
  }

  lemma {:induction false} PathKeysOnly(tasks: seq<Task>, results: seq<Result>, p: string) returns (i: nat)
    requires InRange(tasks, results) && p in PathKeys(tasks, results)
    ensures i < |results| && results[i].Stored? && tasks[results[i].task].path == p
    ensures results[i].key == PathKeys(tasks, results)[p]
  {
    var n := |results| - 1;
    if results[n].Stored? && tasks[results[n].task].path == p {
      i := n;
    } else {
      i := PathKeysOnly(tasks, results[..n], p);
    }
  }

  lemma PathKeysPermuted(tasks: seq<Task>, a: seq<Result>, b: seq<Result>)
    requires multiset(a) == multiset(b) && InRange(tasks, a) && NoConflict(tasks, a)
    ensures InRange(tasks, b) && PathKeys(tasks, a) == PathKeys(tasks, b)
  {
    forall i | 0 <= i < |b| ensures b[i].task < |tasks| {
      var k := SameMembers(b, a, i);
    }
    forall i, j | 0 <= i < |b| && 0 <= j < |b| ensures !Conflict(tasks, b[i], b[j]) {
      var k := SameMembers(b, a, i);
      var l := SameMembers(b, a, j);
      assert !Conflict(tasks, a[k], a[l]);
    }
    forall p | p in PathKeys(tasks, a)
      ensures p in PathKeys(tasks, b) && PathKeys(tasks, b)[p] == PathKeys(tasks, a)[p]
    {
      var i := PathKeysOnly(tasks, a, p);
      var j := SameMembers(a, b, i);
      PathKeysHolds(tasks, b, j);
    }
    forall p | p in PathKeys(tasks, b) ensures p in PathKeys(tasks, a) {
      var i := PathKeysOnly(tasks, b, p);
      var j := SameMembers(b, a, i);
      PathKeysHolds(tasks, a, j);
    }
  }

  ghost predicate OrderIrrelevant(tasks: seq<Task>, results: seq<Result>)
    requires InRange(tasks, results)
  {
    forall p: seq<Result> :: multiset(p) == multiset(results) && InRange(tasks, p) ==>
        PathKeys(tasks, p) == PathKeys(tasks, results)
  }

  lemma MoveToEnd(results: seq<Result>, i: nat, j: nat) returns (rest: seq<Result>)
    requires i < j < |results|
    ensures multiset(rest + [results[i], results[j]]) == multiset(results)
    ensures multiset(rest + [results[j], results[i]]) == multiset(results)
  {
    var a, b, c := results[..i], results[i + 1..j], results[j + 1..];
    rest := a + b + c;
    assert results == a + [results[i]] + b + [results[j]] + c;
  }

  lemma LastWins(tasks: seq<Task>, rest: seq<Result>, a: Result, b: Result)
    requires InRange(tasks, rest + [a, b]) && b.Stored? && b.task < |tasks|
    ensures tasks[b.task].path in PathKeys(tasks, rest + [a, b])
              && PathKeys(tasks, rest + [a, b])[tasks[b.task].path] == b.key
  {
    var p := rest + [a, b];
    assert p[|p| - 1] == b;
  }

  lemma PermutedInRange(tasks: seq<Task>, results: seq<Result>, p: seq<Result>)
    requires InRange(tasks, results) && multiset(p) == multiset(results)
    ensures InRange(tasks, p)
  {
    forall k | 0 <= k < |p| ensures p[k].task < |tasks| {
      var l := SameMembers(p, results, k);
    }
  }

  /** With a conflict, the worker that finishes last decides. */
  lemma ConflictDecidesByOrder(tasks: seq<Task>, results: seq<Result>, i: nat, j: nat)
    requires InRange(tasks, results) && i < j < |results| && Conflict(tasks, results[i], results[j])
    ensures !OrderIrrelevant(tasks, results)
  {
    var rest := MoveToEnd(results, i, j);
    var p, q := rest + [results[i], results[j]], rest + [results[j], results[i]];
    PermutedInRange(tasks, results, p);
    PermutedInRange(tasks, results, q);
    LastWins(tasks, rest, results[i], results[j]);
    LastWins(tasks, rest, results[j], results[i]);
    assert PathKeys(tasks, p) != PathKeys(tasks, q);
  }

  /** The gathered path map depends on the completion order exactly when two entries claim one path
      with different content. */
  lemma OrderIrrelevantIff(tasks: seq<Task>, results: seq<Result>)
    requires InRange(tasks, results)
    ensures OrderIrrelevant(tasks, results) <==> NoConflict(tasks, results)
  {
    if NoConflict(tasks, results) {
      forall p: seq<Result> | multiset(p) == multiset(results) && InRange(tasks, p)
        ensures PathKeys(tasks, p) == PathKeys(tasks, results)
      {
        PathKeysPermuted(tasks, results, p);
      }
    } else {
      var i, j :| 0 <= i < |results| && 0 <= j < |results| && Conflict(tasks, results[i], results[j]);
      if i < j {
        ConflictDecidesByOrder(tasks, results, i, j);
      } else {
        ConflictDecidesByOrder(tasks, results, j, i);
      }
    }
  }

  /** Two listings of one path: whichever worker finishes last names the version's content. */
  lemma DuplicatePathExample(a: FileRecord, b: FileRecord)
    requires RecordKey(a) != RecordKey(b)
    ensures var tasks := [FileTask("f", a.crc32, a.size, false), FileTask("f", b.crc32, b.size, false)];
            var ra, rb := Stored(0, RecordKey(a), a), Stored(1, RecordKey(b), b);
            && PathKeys(tasks, [ra, rb])["f"] == RecordKey(b)
            && PathKeys(tasks, [rb, ra])["f"] == RecordKey(a)
  {
    var tasks := [FileTask("f", a.crc32, a.size, false), FileTask("f", b.crc32, b.size, false)];
    var ra, rb := Stored(0, RecordKey(a), a), Stored(1, RecordKey(b), b);
    assert [] + [ra, rb] == [ra, rb] && [] + [rb, ra] == [rb, ra];
    LastWins(tasks, [], ra, rb);
    LastWins(tasks, [], rb, ra);
  }

  // ---- The tree of the run ----

  function LeafOf(rec: FileRecord): FileLeaf { FileLeaf(rec.crc32, rec.size) }

  predicate KeysKnown(paths: map<string, Key>, files: map<Key, FileRecord>)
  {
    forall p | p in paths :: paths[p] in files
  }

  function PathSet(paths: map<string, Key>): (r: set<Path>)
    ensures forall q {:trigger Join(q)} | q in r :: Join(q) in paths
  {
    var r := set p | p in paths :: Split(p);
    assert forall q {:trigger Join(q)} | q in r :: Join(q) in paths by {
      forall q | q in r ensures Join(q) in paths {
        var p :| p in paths && Split(p) == q;
        JoinSplit(p);
      }
    }
    r
  }

  /** The leaves to insert: under the components of each gathered path, the sizes of its record. */
  function TreeFiles(paths: map<string, Key>, files: map<Key, FileRecord>): map<Path, FileLeaf>
    requires KeysKnown(paths, files)
  {
    map q | q in PathSet(paths) :: LeafOf(files[paths[Join(q)]])
  }

  lemma TreeFilesFrom(paths: map<string, Key>, files: map<Key, FileRecord>, q: Path)
    requires KeysKnown(paths, files) && q in TreeFiles(paths, files)
    ensures Join(q) in paths && Split(Join(q)) == q && TreeFiles(paths, files)[q] == LeafOf(files[paths[Join(q)]])
  {
    assert q in PathSet(paths);
    var p :| p in paths && Split(p) == q;
    JoinSplit(p);
  }

  function TreeDirs(dirs: set<string>): set<Path>
  {
    set d | d in dirs :: Split(d)
  }

  lemma {:induction false} GatheredKeys(tasks: seq<Task>, results: seq<Result>)
    requires InRange(tasks, results)
    ensures KeysKnown(PathKeys(tasks, results), NewFiles(results))
  {
    if results != [] {
      GatheredKeys(tasks, results[..|results| - 1]);
    }
  }

  lemma {:induction false} GatheredFile(results: seq<Result>, k: Key) returns (i: nat)
    requires k in NewFiles(results)
    ensures i < |results| && results[i].Stored? && results[i].key == k && results[i].record == NewFiles(results)[k]
  {
    var n := |results| - 1;
    if results[n].Stored? && results[n].key == k {
      i := n;
    } else {
      i := GatheredFile(results[..n], k);
    }
  }

  lemma GatheredPathsValid(tasks: seq<Task>, results: seq<Result>)
    requires InRange(tasks, results) && forall t | 0 <= t < |tasks| :: ValidTask(tasks[t])
    requires forall i | 0 <= i < |results| && results[i].Stored? :: tasks[results[i].task].FileTask?
    requires forall i | 0 <= i < |results| && results[i].IsDir? :: tasks[results[i].task].DirTask?
    ensures forall p | p in PathKeys(tasks, results) :: ValidPath(Split(p))
    ensures forall d | d in DirPaths(tasks, results) :: ValidPath(Split(d))
  {
    forall p | p in PathKeys(tasks, results) ensures ValidPath(Split(p)) {
      var i := PathKeysOnly(tasks, results, p);
      assert ValidTask(tasks[results[i].task]);
    }
    forall d | d in DirPaths(tasks, results) ensures ValidPath(Split(d)) {
      var i :| 0 <= i < |results| && results[i].IsDir? && TrimSlash(tasks[results[i].task].path) == d;
      assert ValidTask(tasks[results[i].task]);
    }
  }

  /** The records of a complete run: old ones unchanged, new ones with their parts in place. */
  lemma GatheredIntact(st: State, loaded: map<Key, FileRecord>, objects: Objects)
    requires Runs.PoolInv(st, objects) && Final(st) && RunError(st).Complete?
    requires st.existing == loaded && RecordsIntact(loaded, objects)
    ensures RecordsIntact(NewFiles(st.results), objects)
    ensures forall k | k in NewFiles(st.results) && k in loaded :: NewFiles(st.results)[k] == loaded[k]
  {
    Runs.CompleteMeansStored(st, objects);
    forall k | k in NewFiles(st.results)
      ensures RecordKey(NewFiles(st.results)[k]) == k && PartIntact(objects, k, NewFiles(st.results)[k])
      ensures k in loaded ==> NewFiles(st.results)[k] == loaded[k]
    {
      var i := GatheredFile(st.results, k);
      assert st.results[i].Stored?;
    }
  }

  ghost predicate LeafKeysIn(tree: map<Path, FileLeaf>, keys: set<Key>)
  {
    forall q | q in tree :: LeafKey(tree[q]) in keys
  }

  lemma TreeLeafKeys(paths: map<string, Key>, files: map<Key, FileRecord>)
    requires KeysKnown(paths, files) && forall k | k in files :: RecordKey(files[k]) == k
    ensures LeafKeysIn(TreeFiles(paths, files), files.Keys)
  {
    forall q | q in TreeFiles(paths, files) ensures LeafKey(TreeFiles(paths, files)[q]) in files {
      TreeFilesFrom(paths, files, q);
      var k := paths[Join(q)];
      assert RecordKey(files[k]) == k;
    }
  }

  /** Every leaf of a tree has its record when the files it represents do. */
  lemma TreeCovered(s: Scheme, trees: Trees, root: Hash, tree: map<Path, FileLeaf>, dirs: set<Path>,
                    files: map<Key, FileRecord>)
    requires WellFounded(s) && Represents(s, trees, root, tree, dirs) && LeafKeysIn(tree, files.Keys)
    ensures LeavesCovered(trees, root, files)
  {
    forall x, e | Reachable(trees, root, x) && x in trees && e in trees[x].entries && e.node.File?
      ensures LeafKey(e.node.leaf) in files
    {
      var p := ReachableLeafHasPath(s, trees, root, x, e);
      assert p in tree && tree[p] == e.node.leaf;
    }
  }
}
