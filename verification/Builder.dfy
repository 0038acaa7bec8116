/** tempDirNode insertion and buildAndHash (tsync/backup.go).
    The mutable nodes live in one arena; a pointer is an index, in allocation order. */
module Builder {
  import opened Names
  import opened Metadata
  import opened Resolve

  function Child(p: Path, name: string): Path { p + [name] }

  function Parent(p: Path): Path
    requires p != []
  {
    p[..|p| - 1]
  }

  /** Files and directories by full path: every parent is a directory, no path is both. */
  ghost predicate IsTree(files: map<Path, FileLeaf>, dirs: set<Path>)
  {
    && [] in dirs
    && (forall d | d in dirs :: ValidPath(d))
    && (forall d {:trigger Parent(d)} | d in dirs && d != [] :: Parent(d) in dirs)
    && (forall f | f in files :: ValidPath(f) && f != [] && f !in dirs)
    && (forall f {:trigger Parent(f)} | f in files && f != [] :: Parent(f) in dirs)
  }

  lemma {:induction false} PrefixInDirs(files: map<Path, FileLeaf>, dirs: set<Path>, q: Path, k: nat)
    requires IsTree(files, dirs) && q in dirs && k <= |q|
    ensures q[..k] in dirs
  {
    if k == |q| {
      assert q[..k] == q;
    } else {
      PrefixInDirs(files, dirs, Parent(q), k);
      assert Parent(q)[..k] == q[..k];
    }
  }

  lemma PrefixOfFile(files: map<Path, FileLeaf>, dirs: set<Path>, q: Path, k: nat)
    requires IsTree(files, dirs) && q in files && k < |q|
    ensures q[..k] in dirs
  {
    PrefixInDirs(files, dirs, Parent(q), k);
    assert Parent(q)[..k] == q[..k];
  }

  ghost predicate NothingBelow(files: map<Path, FileLeaf>, dirs: set<Path>, q: Path)
  {
    forall n: string :: Child(q, n) !in dirs && Child(q, n) !in files
  }

  /** The tree under h is the part of (files, dirs) under the path `at`. */
  ghost predicate Encodes(s: Scheme, trees: Trees, h: Hash, files: map<Path, FileLeaf>, dirs: set<Path>, at: Path)
  {
    && AllSound(s, trees, h)
    && (forall p: Path, leaf: FileLeaf {:trigger HasFile(s, trees, h, p, leaf)} :: HasFile(s, trees, h, p, leaf) <==>
         at + p in files && files[at + p] == leaf)
    && (forall p: Path {:trigger HasEmptyDir(s, trees, h, p)} :: HasEmptyDir(s, trees, h, p) <==>
         at + p in dirs && NothingBelow(files, dirs, at + p))
  }

  ghost predicate SubMap(trees: Trees, more: Trees)
  {
    forall h | h in trees :: h in more && more[h] == trees[h]
  }

  lemma SubMapAgrees(s: Scheme, trees: Trees, more: Trees, h: Hash)
    requires SubMap(trees, more) && AllSound(s, trees, h)
    ensures AgreeBelow(trees, more, h)
  {
    forall x | Reachable(trees, h, x) ensures x in trees {
      assert Sound(s, trees, x);
    }
  }

  /** More nodes do not change what a sound tree holds. */
  lemma {:induction false} SubMapHasFile(s: Scheme, trees: Trees, more: Trees, h: Hash, p: Path, leaf: FileLeaf)
    requires SubMap(trees, more) && AllSound(s, trees, h)
    ensures HasFile(s, trees, h, p, leaf) <==> HasFile(s, more, h, p, leaf)
    decreases |p|
  {
    AllSoundUnfold(s, trees, h);
    forall e | e in trees[h].entries ensures EntryHasFile(s, trees, e, p, leaf) <==> EntryHasFile(s, more, e, p, leaf) {
      if |p| > 1 && e.node.Subtree? {
        SubMapHasFile(s, trees, more, e.node.hash, p[1..], leaf);
      }
    }
  }

  lemma {:induction false} SubMapHasEmptyDir(s: Scheme, trees: Trees, more: Trees, h: Hash, p: Path)
    requires SubMap(trees, more) && AllSound(s, trees, h)
    ensures HasEmptyDir(s, trees, h, p) <==> HasEmptyDir(s, more, h, p)
    decreases |p|
  {
    AllSoundUnfold(s, trees, h);
    if p != [] {
      forall e | e in trees[h].entries ensures EntryHasEmptyDir(s, trees, e, p) <==> EntryHasEmptyDir(s, more, e, p) {
        if e.node.Subtree? {
          SubMapHasEmptyDir(s, trees, more, e.node.hash, p[1..]);
        }
      }
    }
  }

  lemma SubMapEncodes(s: Scheme, trees: Trees, more: Trees, h: Hash, files: map<Path, FileLeaf>, dirs: set<Path>,
                      at: Path)
    requires SubMap(trees, more) && Encodes(s, trees, h, files, dirs, at)
    ensures Encodes(s, more, h, files, dirs, at)
  {
    SubMapAgrees(s, trees, more, h);
    AgreeSound(s, trees, more, h);
    forall p: Path, leaf: FileLeaf ensures HasFile(s, more, h, p, leaf) <==> at + p in files && files[at + p] == leaf {
      SubMapHasFile(s, trees, more, h, p, leaf);
    }
    forall p: Path ensures HasEmptyDir(s, more, h, p) <==> at + p in dirs && NothingBelow(files, dirs, at + p) {
      SubMapHasEmptyDir(s, trees, more, h, p);
    }
  }

  // ---- One directory level ----

  /** The entries a directory node must have, given the hashes of its subdirectories. */
  ghost predicate LevelEntries(es: seq<TreeEntry>, at: Path, files: map<Path, FileLeaf>, dirs: set<Path>,
                               hashes: map<string, Hash>)
  {
    && (forall n: string :: n in hashes <==> Child(at, n) in dirs)
    && (forall e :: e in es <==>
          (Child(at, e.name) in files && e.node == File(files[Child(at, e.name)]))
          || (e.name in hashes && e.node == Subtree(hashes[e.name])))
  }

  lemma LevelSound(s: Scheme, trees: Trees, h: Hash, files: map<Path, FileLeaf>, dirs: set<Path>, at: Path,
                   hashes: map<string, Hash>)
    requires CollisionFree(s) && IsTree(files, dirs) && at in dirs
    requires Verified(s, trees, h) && StrictlySorted(trees[h].entries)
    requires LevelEntries(trees[h].entries, at, files, dirs, hashes)
    requires forall n | n in hashes :: Encodes(s, trees, hashes[n], files, dirs, Child(at, n))
    ensures AllSound(s, trees, h)
  {
    forall e | e in trees[h].entries ensures GoodEntry(e) && (e.node.Subtree? ==> AllSound(s, trees, e.node.hash)) {
      assert Child(at, e.name) in files || Child(at, e.name) in dirs;
      assert ValidPath(Child(at, e.name));
      assert ValidName(Child(at, e.name)[|at|]);
      if e.node.Subtree? {
        assert Sound(s, trees, e.node.hash) by {
          ReachableSelf(trees, e.node.hash);
        }
      }
    }
    AllSoundUnfold(s, trees, h);
  }

  lemma LevelFiles(s: Scheme, trees: Trees, h: Hash, files: map<Path, FileLeaf>, dirs: set<Path>, at: Path,
                   hashes: map<string, Hash>, p: Path, leaf: FileLeaf)
    requires IsTree(files, dirs) && at in dirs && Verified(s, trees, h)
    requires forall e | e in trees[h].entries :: GoodEntry(e)
    requires LevelEntries(trees[h].entries, at, files, dirs, hashes)
    requires forall n | n in hashes :: Encodes(s, trees, hashes[n], files, dirs, Child(at, n))
    ensures HasFile(s, trees, h, p, leaf) <==> at + p in files && files[at + p] == leaf
  {
    if p == [] {
      assert at + p == at;
    } else if |p| == 1 {
      assert at + p == Child(at, p[0]);
      var e := TreeEntry(p[0], File(leaf));
      if at + p in files && files[at + p] == leaf {
        assert e in trees[h].entries && EntryHasFile(s, trees, e, p, leaf);
      }
      if HasFile(s, trees, h, p, leaf) {
        var d :| d in trees[h].entries && EntryHasFile(s, trees, d, p, leaf);
        assert d.name == p[0] && d.node == File(leaf);
      }
    } else {
      var n := p[0];
      assert at + p == Child(at, n) + p[1..];
      if at + p in files {
        PrefixOfFile(files, dirs, at + p, |at| + 1);
        assert (at + p)[..|at| + 1] == Child(at, n);
      }
      if at + p in files && files[at + p] == leaf {
        var e := TreeEntry(n, Subtree(hashes[n]));
        assert Encodes(s, trees, hashes[n], files, dirs, Child(at, n));
        assert HasFile(s, trees, hashes[n], p[1..], leaf);
        assert e in trees[h].entries && EntryHasFile(s, trees, e, p, leaf);
      }
      if HasFile(s, trees, h, p, leaf) {
        var d :| d in trees[h].entries && EntryHasFile(s, trees, d, p, leaf);
        assert d.node == Subtree(hashes[n]);
        assert HasFile(s, trees, hashes[n], p[1..], leaf);
        assert Encodes(s, trees, hashes[n], files, dirs, Child(at, n));
        assert Child(at, n) + p[1..] in files;
      }
    }
  }

  lemma LevelEmptyDirs(s: Scheme, trees: Trees, h: Hash, files: map<Path, FileLeaf>, dirs: set<Path>, at: Path,
                       hashes: map<string, Hash>, p: Path)
    requires IsTree(files, dirs) && at in dirs && Verified(s, trees, h)
    requires forall e | e in trees[h].entries :: GoodEntry(e)
    requires LevelEntries(trees[h].entries, at, files, dirs, hashes)
    requires forall n | n in hashes :: Encodes(s, trees, hashes[n], files, dirs, Child(at, n))
    ensures HasEmptyDir(s, trees, h, p) <==> at + p in dirs && NothingBelow(files, dirs, at + p)
  {
    if p == [] {
      assert at + p == at;
      if trees[h].entries != [] {
        var e := trees[h].entries[0];
        assert e in trees[h].entries;
        assert Child(at, e.name) in files || Child(at, e.name) in dirs;
      }
      if !NothingBelow(files, dirs, at) {
        var n: string :| Child(at, n) in dirs || Child(at, n) in files;
        var e := TreeEntry(n, if Child(at, n) in files then File(files[Child(at, n)]) else Subtree(hashes[n]));
        assert e in trees[h].entries;
      }
    } else {
      var n := p[0];
      assert at + p == Child(at, n) + p[1..];
      if at + p in dirs {
        PrefixInDirs(files, dirs, at + p, |at| + 1);
        assert (at + p)[..|at| + 1] == Child(at, n);
        var e := TreeEntry(n, Subtree(hashes[n]));
        assert e in trees[h].entries;
        assert EntryHasEmptyDir(s, trees, e, p) <==> HasEmptyDir(s, trees, hashes[n], p[1..]);
      }
      if HasEmptyDir(s, trees, h, p) {
        var d :| d in trees[h].entries && EntryHasEmptyDir(s, trees, d, p);
        assert d.node == Subtree(hashes[n]);
        assert Encodes(s, trees, hashes[n], files, dirs, Child(at, n));
        assert HasEmptyDir(s, trees, hashes[n], p[1..]);
      }
    }
  }

  lemma LevelEncodes(s: Scheme, trees: Trees, h: Hash, files: map<Path, FileLeaf>, dirs: set<Path>, at: Path,
                     hashes: map<string, Hash>)
    requires CollisionFree(s) && IsTree(files, dirs) && at in dirs
    requires Verified(s, trees, h) && StrictlySorted(trees[h].entries)
    requires LevelEntries(trees[h].entries, at, files, dirs, hashes)
    requires forall n | n in hashes :: Encodes(s, trees, hashes[n], files, dirs, Child(at, n))
    ensures Encodes(s, trees, h, files, dirs, at)
  {
    LevelSound(s, trees, h, files, dirs, at, hashes);
    AllSoundUnfold(s, trees, h);
    forall p: Path, leaf: FileLeaf ensures HasFile(s, trees, h, p, leaf) <==> at + p in files && files[at + p] == leaf {
      LevelFiles(s, trees, h, files, dirs, at, hashes, p, leaf);
    }
    forall p: Path ensures HasEmptyDir(s, trees, h, p) <==> at + p in dirs && NothingBelow(files, dirs, at + p) {
      LevelEmptyDirs(s, trees, h, files, dirs, at, hashes, p);
    }
  }

  // ---- sort.Slice by name, as a function ----

  function InsertByName(es: seq<TreeEntry>, e: TreeEntry): seq<TreeEntry>
  {
    if es == [] || Less(e.name, es[0].name) then [e] + es else [es[0]] + InsertByName(es[1..], e)
  }

  function SortByName(es: seq<TreeEntry>): seq<TreeEntry>
  {
    if es == [] then [] else InsertByName(SortByName(es[1..]), es[0])
  }

  predicate DistinctNames(es: seq<TreeEntry>)
  {
    forall i, j | 0 <= i < j < |es| :: es[i].name != es[j].name
  }

  lemma {:induction false} InsertByNameSorted(es: seq<TreeEntry>, e: TreeEntry)
    requires StrictlySorted(es) && forall x | x in es :: x.name != e.name
    ensures StrictlySorted(InsertByName(es, e))
    ensures forall x :: x in InsertByName(es, e) <==> x in es || x == e
  {
    if es == [] {
    } else if Less(e.name, es[0].name) {
      forall j | 0 < j < |es| ensures Less(e.name, es[j].name) {
        LessTransitive(e.name, es[0].name, es[j].name);
      }
    } else {
      LessTotal(e.name, es[0].name);
      var tail := InsertByName(es[1..], e);
      InsertByNameSorted(es[1..], e);
      assert es == [es[0]] + es[1..];
      forall j | 0 <= j < |tail| ensures Less(es[0].name, tail[j].name) {
        assert tail[j] in tail;
        if tail[j] != e {
          var k :| 0 < k < |es| && es[k] == tail[j];
        }
      }
    }
  }

  lemma {:induction false} SortByNameSorts(es: seq<TreeEntry>)
    requires DistinctNames(es)
    ensures StrictlySorted(SortByName(es))
    ensures forall x :: x in SortByName(es) <==> x in es
  {
    if es != [] {
      SortByNameSorts(es[1..]);
      assert es == [es[0]] + es[1..];
      forall x | x in SortByName(es[1..]) ensures x.name != es[0].name {
        var k :| 0 < k < |es| && es[k] == x;
      }
      InsertByNameSorted(SortByName(es[1..]), es[0]);
    }
  }
}
