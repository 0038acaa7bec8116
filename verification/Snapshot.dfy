/** What a version must show of the entries it was made from, said of paths and results alone
    (tsync/backup.go RunBackup; tsync/restore.go ResolveVersionTree). */
module Snapshot {
  import opened Base
  import opened Counting
  import opened Names
  import opened Keys
  import opened Metadata
  import opened Resolve
  import opened TempTree
  import opened Store
  import opened UploadPool
  import opened Gather

  // ---- The entries of a run ----

  /** A directory entry may carry one trailing slash. */
  predicate NamesDir(path: string, d: string)
  {
    path == d + "/" || (path == d && (d == "" || d[|d| - 1] != '/'))
  }

  ghost predicate IsEntry(r: Result) { r.Stored? || r.IsDir? }

  function PathOf(tasks: seq<Task>, r: Result): string
    requires r.task < |tasks|
  {
    tasks[r.task].path
  }

  /** No later result stores the same path. */
  ghost predicate Wins(tasks: seq<Task>, results: seq<Result>, i: nat)
    requires InRange(tasks, results)
  {
    && i < |results| && results[i].Stored?
    && forall j | i < j < |results| && results[j].Stored? :: PathOf(tasks, results[j]) != PathOf(tasks, results[i])
  }

  /** Some entry lies below d. */
  ghost predicate Inhabited(tasks: seq<Task>, results: seq<Result>, d: string)
    requires InRange(tasks, results)
  {
    exists j :: 0 <= j < |results| && IsEntry(results[j]) && Under(d, PathOf(tasks, results[j]))
  }

  ghost predicate Listed(tasks: seq<Task>, results: seq<Result>, d: string)
    requires InRange(tasks, results)
  {
    exists i :: 0 <= i < |results| && results[i].IsDir? && NamesDir(PathOf(tasks, results[i]), d)
  }

  /** Every stored path is there, with the key of the result that came last for it, and nothing else is. */
  ghost predicate ShowsFiles(tasks: seq<Task>, results: seq<Result>, files: map<string, Key>)
    requires InRange(tasks, results)
  {
    && (forall i | 0 <= i < |results| && results[i].Stored? ::
          && PathOf(tasks, results[i]) in files
          && (Wins(tasks, results, i) ==> files[PathOf(tasks, results[i])] == results[i].key))
    && (forall q | q in files :: exists i :: 0 <= i < |results| && results[i].Stored? && PathOf(tasks, results[i]) == q)
  }

  /** Exactly the listed directories that no other entry lies under, each once. */
  ghost predicate ShowsDirs(tasks: seq<Task>, results: seq<Result>, dirs: seq<string>)
    requires InRange(tasks, results)
  {
    && Distinct(dirs)
    && forall d :: d in dirs <==> Listed(tasks, results, d) && !Inhabited(tasks, results, d)
  }

  ghost predicate InTheWay(tasks: seq<Task>, results: seq<Result>, p: string)
    requires InRange(tasks, results)
  {
    Inhabited(tasks, results, p) || Listed(tasks, results, p)
  }

  /** A file stands where another entry needs a directory. */
  ghost predicate Clash(tasks: seq<Task>, results: seq<Result>)
    requires InRange(tasks, results)
  {
    exists i :: 0 <= i < |results| && results[i].Stored?
                && InTheWay(tasks, results, PathOf(tasks, results[i]))
  }

  /** Results of the right kind, for entries that were validated before the workers started. */
  ghost predicate Gathered(tasks: seq<Task>, results: seq<Result>)
  {
    && InRange(tasks, results) && KeysKnown(PathKeys(tasks, results), NewFiles(results))
    && (forall t | 0 <= t < |tasks| :: ValidTask(tasks[t]))
    && (forall i | 0 <= i < |results| && results[i].Stored? :: tasks[results[i].task].FileTask?)
    && (forall i | 0 <= i < |results| && results[i].IsDir? :: tasks[results[i].task].DirTask?)
  }

  function TreeOf(tasks: seq<Task>, results: seq<Result>): map<Path, FileLeaf>
    requires InRange(tasks, results) && KeysKnown(PathKeys(tasks, results), NewFiles(results))
  {
    TreeFiles(PathKeys(tasks, results), NewFiles(results))
  }

  // ---- Paths as strings and as components ----

  lemma NamesDirIff(path: string, d: string)
    ensures NamesDir(path, d) <==> d == TrimSlash(path)
  {
    if path == d + "/" {
      assert path[|path| - 1] == '/' && path[..|path| - 1] == d;
    }
    if path != "" && path[|path| - 1] == '/' {
      assert path == path[..|path| - 1] + "/";
    }
  }

  /** The string of a valid path does not end in a slash. */
  lemma {:induction false} ValidEnd(p: Path)
    requires ValidPath(p) && p != []
    ensures Join(p) != "" && Join(p)[|Join(p)| - 1] != '/'
  {
    if |p| > 1 {
      ValidEnd(p[1..]);
    }
  }

  lemma UnderTrim(d: string, t: string)
    requires t != "" && t[|t| - 1] != '/'
    ensures Under(d, t + "/") <==> Under(d, t)
  {
    var p := t + "/";
    if Under(d, p) {
      assert p[..|d| + 1] == t[..|d| + 1];
      assert (d + "/")[|d|] == '/';
    }
    if Under(d, t) {
      assert p[..|d| + 1] == t[..|d| + 1];
    }
  }

  /** The components an entry is inserted under. */
  function Parts(t: Task): Path { Split(if t.DirTask? then TrimSlash(t.path) else t.path) }

  lemma PartsOf(t: Task, d: string)
    requires ValidTask(t)
    ensures ValidPath(Parts(t)) && Parts(t) != []
    ensures Join(Parts(t)) == if t.DirTask? then TrimSlash(t.path) else t.path
    ensures Under(d, t.path) <==> Under(d, Join(Parts(t)))
  {
    JoinSplit(if t.DirTask? then TrimSlash(t.path) else t.path);
    ValidEnd(Parts(t));
    if t.DirTask? {
      NamesDirIff(t.path, TrimSlash(t.path));
      UnderTrim(d, TrimSlash(t.path));
    }
  }

  // ---- The tree holds exactly the entries ----

  lemma {:induction false} PathKeysHas(tasks: seq<Task>, results: seq<Result>, i: nat)
    requires InRange(tasks, results) && i < |results| && results[i].Stored?
    ensures PathOf(tasks, results[i]) in PathKeys(tasks, results)
    ensures Wins(tasks, results, i) ==> PathKeys(tasks, results)[PathOf(tasks, results[i])] == results[i].key
  {
    var n := |results| - 1;
    if i < n {
      var front := results[..n];
      PathKeysHas(tasks, front, i);
      if Wins(tasks, results, i) {
        assert forall j | 0 <= j < n :: front[j] == results[j];
        assert Wins(tasks, front, i);
      }
    }
  }

  lemma FileInTree(tasks: seq<Task>, results: seq<Result>, i: nat)
    requires Gathered(tasks, results) && i < |results| && results[i].Stored?
    ensures Parts(tasks[results[i].task]) in TreeOf(tasks, results)
  {
    PathKeysHas(tasks, results, i);
    JoinSplit(PathOf(tasks, results[i]));
    assert Parts(tasks[results[i].task]) in PathSet(PathKeys(tasks, results));
  }

  lemma TreeFileFrom(tasks: seq<Task>, results: seq<Result>, q: Path) returns (i: nat)
    requires Gathered(tasks, results) && q in TreeOf(tasks, results)
    ensures i < |results| && results[i].Stored? && Parts(tasks[results[i].task]) == q
    ensures ValidPath(q) && q != []
  {
    TreeFilesFrom(PathKeys(tasks, results), NewFiles(results), q);
    i := PathKeysOnly(tasks, results, Join(q));
    PartsOf(tasks[results[i].task], "");
  }

  lemma DirInTree(tasks: seq<Task>, results: seq<Result>, i: nat)
    requires Gathered(tasks, results) && i < |results| && results[i].IsDir?
    ensures Parts(tasks[results[i].task]) in TreeDirs(DirPaths(tasks, results))
  {
    assert TrimSlash(PathOf(tasks, results[i])) in DirPaths(tasks, results);
  }

  lemma TreeDirFrom(tasks: seq<Task>, results: seq<Result>, q: Path) returns (i: nat)
    requires Gathered(tasks, results) && q in TreeDirs(DirPaths(tasks, results))
    ensures i < |results| && results[i].IsDir? && Parts(tasks[results[i].task]) == q
    ensures ValidPath(q) && q != []
  {
    var d :| d in DirPaths(tasks, results) && Split(d) == q;
    i :| 0 <= i < |results| && results[i].IsDir? && TrimSlash(tasks[results[i].task].path) == d;
    PartsOf(tasks[results[i].task], "");
  }

  /** Something of the tree lies under p exactly when some entry lies under its string. */
  lemma UnderInTree(tasks: seq<Task>, results: seq<Result>, p: Path)
    requires Gathered(tasks, results) && ValidPath(p) && p != []
    ensures SomethingUnder(TreeOf(tasks, results).Keys, TreeDirs(DirPaths(tasks, results)), p)
            <==> Inhabited(tasks, results, Join(p))
  {
    if SomethingUnder(TreeOf(tasks, results).Keys, TreeDirs(DirPaths(tasks, results)), p) {
      var q :| q in TreeOf(tasks, results).Keys + TreeDirs(DirPaths(tasks, results)) && Above(p, q);
      var i;
      if q in TreeOf(tasks, results) {
        i := TreeFileFrom(tasks, results, q);
      } else {
        i := TreeDirFrom(tasks, results, q);
      }
      AboveUnder(p, q);
      PartsOf(tasks[results[i].task], Join(p));
    }
    if Inhabited(tasks, results, Join(p)) {
      var j :| 0 <= j < |results| && IsEntry(results[j]) && Under(Join(p), PathOf(tasks, results[j]));
      var q := Parts(tasks[results[j].task]);
      PartsOf(tasks[results[j].task], Join(p));
      AboveUnder(p, q);
      if results[j].Stored? {
        FileInTree(tasks, results, j);
      } else {
        DirInTree(tasks, results, j);
      }
    }
  }

  lemma ListedInTree(tasks: seq<Task>, results: seq<Result>, p: Path)
    requires Gathered(tasks, results) && ValidPath(p) && p != []
    ensures p in TreeDirs(DirPaths(tasks, results)) <==> Listed(tasks, results, Join(p))
  {
    if p in TreeDirs(DirPaths(tasks, results)) {
      var i := TreeDirFrom(tasks, results, p);
      PartsOf(tasks[results[i].task], "");
      NamesDirIff(PathOf(tasks, results[i]), Join(p));
    }
    if Listed(tasks, results, Join(p)) {
      var i :| 0 <= i < |results| && results[i].IsDir? && NamesDir(PathOf(tasks, results[i]), Join(p));
      NamesDirIff(PathOf(tasks, results[i]), Join(p));
      DirInTree(tasks, results, i);
      PartsOf(tasks[results[i].task], "");
      JoinInjective(Parts(tasks[results[i].task]), p);
    }
  }

  lemma CollisionIsClash(tasks: seq<Task>, results: seq<Result>, f: Path, q: Path)
    requires Gathered(tasks, results) && f in TreeOf(tasks, results)
    requires (q in TreeDirs(DirPaths(tasks, results)) && Covers(f, q)) || (q in TreeOf(tasks, results) && Above(f, q))
    ensures Clash(tasks, results)
  {
    var i := TreeFileFrom(tasks, results, f);
    PartsOf(tasks[results[i].task], "");
    UnderInTree(tasks, results, f);
    ListedInTree(tasks, results, f);
    assert q == f || Above(f, q);
  }

  lemma ClashIsCollision(tasks: seq<Task>, results: seq<Result>, i: nat)
    requires Gathered(tasks, results) && i < |results| && results[i].Stored?
    requires InTheWay(tasks, results, PathOf(tasks, results[i]))
    ensures Collides(TreeOf(tasks, results).Keys, TreeDirs(DirPaths(tasks, results)))
  {
    var files, dirs := TreeOf(tasks, results).Keys, TreeDirs(DirPaths(tasks, results));
    var f := Parts(tasks[results[i].task]);
    PartsOf(tasks[results[i].task], "");
    FileInTree(tasks, results, i);
    UnderInTree(tasks, results, f);
    ListedInTree(tasks, results, f);
    if f in dirs {
      assert Covers(f, f);
    } else {
      var q :| q in files + dirs && Above(f, q);
      assert Covers(f, q);
    }
  }

  /** ErrPathCollision, said of the entries. */
  lemma CollidesIffClash(tasks: seq<Task>, results: seq<Result>)
    requires Gathered(tasks, results)
    ensures Collides(TreeOf(tasks, results).Keys, TreeDirs(DirPaths(tasks, results))) <==> Clash(tasks, results)
  {
    var files, dirs := TreeOf(tasks, results).Keys, TreeDirs(DirPaths(tasks, results));
    if Collides(files, dirs) {
      var f, q :| f in files && ((q in dirs && Covers(f, q)) || (q in files && Above(f, q)));
      CollisionIsClash(tasks, results, f, q);
    }
    if Clash(tasks, results) {
      var i :| 0 <= i < |results| && results[i].Stored?
               && InTheWay(tasks, results, PathOf(tasks, results[i]));
      ClashIsCollision(tasks, results, i);
    }
  }

  // ---- A version shows exactly its entries ----

  lemma LeafKeyIs(tasks: seq<Task>, results: seq<Result>, i: nat)
    requires Gathered(tasks, results) && OwnKeys(NewFiles(results)) && Wins(tasks, results, i)
    ensures Parts(tasks[results[i].task]) in TreeOf(tasks, results)
    ensures LeafKey(TreeOf(tasks, results)[Parts(tasks[results[i].task])]) == results[i].key
  {
    var q := Parts(tasks[results[i].task]);
    FileInTree(tasks, results, i);
    TreeFilesFrom(PathKeys(tasks, results), NewFiles(results), q);
    PathKeysHas(tasks, results, i);
    PartsOf(tasks[results[i].task], "");
    assert RecordKey(NewFiles(results)[results[i].key]) == results[i].key;
  }

  lemma FilesShown(s: Scheme, trees: Trees, root: Hash, tasks: seq<Task>, results: seq<Result>)
    requires WellFounded(s) && Gathered(tasks, results) && OwnKeys(NewFiles(results))
    requires Represents(s, trees, root, TreeOf(tasks, results), TreeDirs(DirPaths(tasks, results)))
    ensures Walk(s, trees, root, "", false).Some?
    ensures ShowsFiles(tasks, results, Walk(s, trees, root, "", false).value.files)
  {
    var tree, dirs := TreeOf(tasks, results), TreeDirs(DirPaths(tasks, results));
    forall f | f in tree ensures ValidPath(f) {
      var i := TreeFileFrom(tasks, results, f);
    }
    RoundTrip(s, trees, root, tree, dirs);
    var files := Walk(s, trees, root, "", false).value.files;
    forall i | 0 <= i < |results| && results[i].Stored?
      ensures PathOf(tasks, results[i]) in files
      ensures Wins(tasks, results, i) ==> files[PathOf(tasks, results[i])] == results[i].key
    {
      FileInTree(tasks, results, i);
      PartsOf(tasks[results[i].task], "");
      if Wins(tasks, results, i) {
        LeafKeyIs(tasks, results, i);
      }
    }
    forall q | q in files
      ensures exists i :: 0 <= i < |results| && results[i].Stored? && PathOf(tasks, results[i]) == q
    {
      var i := TreeFileFrom(tasks, results, Split(q));
      PartsOf(tasks[results[i].task], "");
    }
  }

  lemma DirsShown(s: Scheme, trees: Trees, root: Hash, tasks: seq<Task>, results: seq<Result>)
    requires WellFounded(s) && Gathered(tasks, results)
    requires Represents(s, trees, root, TreeOf(tasks, results), TreeDirs(DirPaths(tasks, results)))
    ensures Walk(s, trees, root, "", false).Some?
    ensures ShowsDirs(tasks, results, Walk(s, trees, root, "", false).value.dirs)
  {
    var tree, dirs := TreeOf(tasks, results), TreeDirs(DirPaths(tasks, results));
    forall f | f in tree ensures ValidPath(f) {
      var i := TreeFileFrom(tasks, results, f);
    }
    RoundTrip(s, trees, root, tree, dirs);
    var shown := Walk(s, trees, root, "", false).value.dirs;
    forall d | d in shown ensures Listed(tasks, results, d) && !Inhabited(tasks, results, d) {
      var i := TreeDirFrom(tasks, results, Split(d));
      ListedInTree(tasks, results, Split(d));
      UnderInTree(tasks, results, Split(d));
    }
    forall d | Listed(tasks, results, d) && !Inhabited(tasks, results, d) ensures d in shown {
      var i :| 0 <= i < |results| && results[i].IsDir? && NamesDir(PathOf(tasks, results[i]), d);
      var p := Parts(tasks[results[i].task]);
      NamesDirIff(PathOf(tasks, results[i]), d);
      PartsOf(tasks[results[i].task], "");
      ListedInTree(tasks, results, p);
      UnderInTree(tasks, results, p);
    }
  }

  /** Resolving the version gives back exactly the entries. */
  ghost predicate ShowsEntries(s: Scheme, md: BackupMetadata, id: VersionId, tasks: seq<Task>, results: seq<Result>)
    requires WellFounded(s) && InRange(tasks, results)
  {
    var r := ResolveVersion(s, md, id, false);
    r.Resolved? && ShowsFiles(tasks, results, r.files) && ShowsDirs(tasks, results, r.emptyDirs)
  }

  /** The records: one of each stored key, as some result has it, and nothing else but what was kept. */
  ghost predicate HoldsRecords(files: map<Key, FileRecord>, kept: map<Key, FileRecord>, results: seq<Result>)
  {
    && (forall i | 0 <= i < |results| && results[i].Stored? :: results[i].key in files)
    && (forall k | k in kept :: k in files)
    && forall k | k in files ::
         || (exists i :: 0 <= i < |results| && results[i] == Stored(results[i].task, k, files[k]))
         || (k in kept && files[k] == kept[k])
  }

  lemma {:induction false} NewFilesHas(results: seq<Result>, i: nat)
    requires i < |results| && results[i].Stored?
    ensures results[i].key in NewFiles(results)
  {
    if i < |results| - 1 {
      NewFilesHas(results[..|results| - 1], i);
    }
  }

  lemma RecordsHeld(kept: map<Key, FileRecord>, results: seq<Result>)
    ensures HoldsRecords(kept + NewFiles(results), kept, results)
  {
    var files := kept + NewFiles(results);
    forall i | 0 <= i < |results| && results[i].Stored? ensures results[i].key in files {
      NewFilesHas(results, i);
    }
    forall k | k in NewFiles(results)
      ensures exists i :: 0 <= i < |results| && results[i] == Stored(results[i].task, k, files[k])
    {
      var i := GatheredFile(results, k);
    }
  }

  /** What a committed run leaves in the metadata: the new version beside the old ones, or alone in
      single-version mode, with the records of its entries, and resolving to exactly these entries. */
  ghost predicate Recorded(s: Scheme, md: BackupMetadata, loaded: Option<BackupMetadata>, single: bool,
                           id: VersionId, v: Version, tasks: seq<Task>, results: seq<Result>)
    requires WellFounded(s) && InRange(tasks, results)
  {
    && AddsVersion(md, if single || loaded.None? then map[] else loaded.value.versions, id, v)
    && HoldsRecords(md.files, if single || loaded.None? then map[] else loaded.value.files, results)
    && ((loaded.Some? ==> OwnKeys(loaded.value.files)) ==> ShowsEntries(s, md, id, tasks, results))
  }

  /** The metadata of a complete run is just that. */
  lemma NextRecords(s: Scheme, loaded: Option<BackupMetadata>, single: bool, id: VersionId, v: Version,
                    trees: Trees, tasks: seq<Task>, results: seq<Result>)
    requires WellFounded(s) && Gathered(tasks, results)
    requires (loaded.Some? ==> OwnKeys(loaded.value.files)) ==> OwnKeys(NewFiles(results))
    requires Represents(s, trees, v.root, TreeOf(tasks, results), TreeDirs(DirPaths(tasks, results)))
    ensures var md := NewMetadata(loaded, single, id, v, trees, NewFiles(results));
            Recorded(s, md, loaded, single, id, v, tasks, results)
  {
    NewMetadataAdds(loaded, single, id, v, trees, NewFiles(results));
    RecordsHeld(if single || loaded.None? then map[] else loaded.value.files, results);
    if loaded.Some? ==> OwnKeys(loaded.value.files) {
      FilesShown(s, trees, v.root, tasks, results);
      DirsShown(s, trees, v.root, tasks, results);
      BackupResolvesNew(s, loaded, single, id, v, trees, NewFiles(results));
    }
  }
}
