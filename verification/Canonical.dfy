/** A root hash and a snapshot determine each other (tsync/backup.go buildAndHash, tsync/restore.go walkTree). */
module Canonical {
  import opened Names
  import opened Keys
  import opened Metadata
  import opened Resolve

  /** The same leaves at the same paths and the same empty directories. */
  ghost predicate SameContent(s: Scheme, t1: Trees, h1: Hash, t2: Trees, h2: Hash)
  {
    && (forall p: Path, leaf: FileLeaf :: HasFile(s, t1, h1, p, leaf) <==> HasFile(s, t2, h2, p, leaf))
    && (forall p: Path :: HasEmptyDir(s, t1, h1, p) <==> HasEmptyDir(s, t2, h2, p))
  }

  lemma {:induction false} SortedUnique(a: seq<TreeEntry>, b: seq<TreeEntry>)
    requires StrictlySorted(a) && StrictlySorted(b)
    requires forall e :: e in a <==> e in b
    ensures a == b
  {
    Inhabited(a, b);
    Inhabited(b, a);
    if a != [] {
      LessTotal(a[0].name, b[0].name);
      assert a[0] == b[0];
      forall e ensures e in a[1..] <==> e in b[1..] {
        TailMember(a, e);
        TailMember(b, e);
      }
      SortedUnique(a[1..], b[1..]);
      assert a == [a[0]] + a[1..] && b == [b[0]] + b[1..];
    }
  }

  lemma Inhabited(a: seq<TreeEntry>, b: seq<TreeEntry>)
    requires forall e :: e in a ==> e in b
    ensures a != [] ==> b != [] && a[0] in b
  {
    if a != [] {
      assert a[0] in a;
    }
  }

  lemma TailMember(a: seq<TreeEntry>, e: TreeEntry)
    requires StrictlySorted(a) && a != []
    ensures e in a[1..] <==> e in a && e != a[0]
  {
    LessTotal(a[0].name, a[0].name);
    if e in a[1..] {
      var i :| 0 < i < |a| && a[i] == e;
    }
  }

  /** A sound node that is not empty leads to a file or to an empty directory. */
  lemma {:induction false} SomethingBelow(s: Scheme, trees: Trees, h: Hash)
    returns (p: Path, leaf: FileLeaf, isFile: bool)
    requires WellFounded(s) && AllSound(s, trees, h)
    ensures if isFile then HasFile(s, trees, h, p, leaf) else HasEmptyDir(s, trees, h, p)
    ensures p == [] ==> trees[h].entries == []
    decreases s.rank(h)
  {
    AllSoundUnfold(s, trees, h);
    leaf := FileLeaf(0, 0);
    if trees[h].entries == [] {
      p, isFile := [], false;
    } else {
      var e := trees[h].entries[0];
      assert GoodEntry(e);
      if e.node.File? {
        p, leaf, isFile := [e.name], e.node.leaf, true;
        assert EntryHasFile(s, trees, e, p, leaf);
      } else {
        p, leaf, isFile := SomethingBelow(s, trees, e.node.hash);
        ExtendContent(s, trees, h, e, p, leaf);
        p := [e.name] + p;
      }
    }
  }

  lemma ExtendContent(s: Scheme, trees: Trees, h: Hash, e: TreeEntry, p: Path, leaf: FileLeaf)
    requires Verified(s, trees, h) && e in trees[h].entries && GoodEntry(e) && e.node.Subtree?
    ensures HasFile(s, trees, e.node.hash, p, leaf) ==> HasFile(s, trees, h, [e.name] + p, leaf)
    ensures HasEmptyDir(s, trees, e.node.hash, p) ==> HasEmptyDir(s, trees, h, [e.name] + p)
  {
    var q := [e.name] + p;
    assert q[1..] == p;
    if HasFile(s, trees, e.node.hash, p, leaf) {
      FileBelowIsNonEmpty(s, trees, e.node.hash, p, leaf);
      assert EntryHasFile(s, trees, e, q, leaf);
    }
    if HasEmptyDir(s, trees, e.node.hash, p) {
      assert EntryHasEmptyDir(s, trees, e, q);
    }
  }

  /** In a sorted node the content below a name is the content of the one entry with that name. */
  lemma ContentBelow(s: Scheme, trees: Trees, h: Hash, e: TreeEntry, p: Path, leaf: FileLeaf)
    requires Sound(s, trees, h) && e in trees[h].entries && e.node.Subtree?
    ensures HasFile(s, trees, h, [e.name] + p, leaf) ==> HasFile(s, trees, e.node.hash, p, leaf)
    ensures HasEmptyDir(s, trees, h, [e.name] + p) ==> HasEmptyDir(s, trees, e.node.hash, p)
  {
    var q := [e.name] + p;
    assert q[1..] == p;
    if HasFile(s, trees, h, q, leaf) {
      var d :| d in trees[h].entries && EntryHasFile(s, trees, d, q, leaf);
      SameNameSameEntry(trees[h].entries, d, e);
    }
    if HasEmptyDir(s, trees, h, q) {
      var d :| d in trees[h].entries && EntryHasEmptyDir(s, trees, d, q);
      SameNameSameEntry(trees[h].entries, d, e);
    }
  }

  lemma SameNameSameEntry(es: seq<TreeEntry>, d: TreeEntry, e: TreeEntry)
    requires StrictlySorted(es) && d in es && e in es && d.name == e.name
    ensures d == e
  {
    var i :| 0 <= i < |es| && es[i] == d;
    var j :| 0 <= j < |es| && es[j] == e;
    SortedDistinct(es, i, j);
  }

  /** Equal content has equal hashes, whatever tree maps hold it. No hypothesis on collisions. */
  lemma {:induction false} SameContentSameHash(s: Scheme, t1: Trees, h1: Hash, t2: Trees, h2: Hash)
    requires WellFounded(s) && AllSound(s, t1, h1) && AllSound(s, t2, h2)
    requires SameContent(s, t1, h1, t2, h2)
    ensures h1 == h2
    decreases s.rank(h1), s.rank(h2), 1
  {
    AllSoundUnfold(s, t1, h1);
    AllSoundUnfold(s, t2, h2);
    forall e ensures e in t1[h1].entries <==> e in t2[h2].entries {
      if e in t1[h1].entries {
        EntryCarriesOver(s, t1, h1, t2, h2, e, true);
      }
      if e in t2[h2].entries {
        EntryCarriesOver(s, t2, h2, t1, h1, e, false);
      }
    }
    SortedUnique(t1[h1].entries, t2[h2].entries);
    assert t1[h1] == t2[h2];
  }

  lemma {:induction false} EntryCarriesOver(s: Scheme, t1: Trees, h1: Hash, t2: Trees, h2: Hash, e: TreeEntry,
                                            forward: bool)
    requires WellFounded(s) && AllSound(s, t1, h1) && AllSound(s, t2, h2)
    requires SameContent(s, t1, h1, t2, h2)
    requires h1 in t1 && e in t1[h1].entries
    ensures h2 in t2 && e in t2[h2].entries
    decreases if forward then s.rank(h1) else s.rank(h2), if forward then s.rank(h2) else s.rank(h1), 0
  {
    AllSoundUnfold(s, t1, h1);
    AllSoundUnfold(s, t2, h2);
    if e.node.File? {
      assert EntryHasFile(s, t1, e, [e.name], e.node.leaf);
      assert HasFile(s, t2, h2, [e.name], e.node.leaf);
      var d :| d in t2[h2].entries && EntryHasFile(s, t2, d, [e.name], e.node.leaf);
    } else {
      var c := e.node.hash;
      var d := SubtreeCarriesOver(s, t1, h1, t2, h2, e);
      ChildRank(s, t1, h1, e);
      ChildRank(s, t2, h2, d);
      forall p: Path, leaf: FileLeaf
        ensures HasFile(s, t1, c, p, leaf) <==> HasFile(s, t2, d.node.hash, p, leaf)
      {
        ExtendContent(s, t1, h1, e, p, leaf);
        ExtendContent(s, t2, h2, d, p, leaf);
        ContentBelow(s, t1, h1, e, p, leaf);
        ContentBelow(s, t2, h2, d, p, leaf);
      }
      forall p: Path ensures HasEmptyDir(s, t1, c, p) <==> HasEmptyDir(s, t2, d.node.hash, p) {
        ExtendContent(s, t1, h1, e, p, FileLeaf(0, 0));
        ExtendContent(s, t2, h2, d, p, FileLeaf(0, 0));
        ContentBelow(s, t1, h1, e, p, FileLeaf(0, 0));
        ContentBelow(s, t2, h2, d, p, FileLeaf(0, 0));
      }
      if forward {
        SameContentSameHash(s, t1, c, t2, d.node.hash);
      } else {
        SameContentSameHash(s, t2, d.node.hash, t1, c);
      }
    }
  }

  lemma SubtreeCarriesOver(s: Scheme, t1: Trees, h1: Hash, t2: Trees, h2: Hash, e: TreeEntry) returns (d: TreeEntry)
    requires WellFounded(s) && AllSound(s, t1, h1) && AllSound(s, t2, h2)
    requires SameContent(s, t1, h1, t2, h2)
    requires Sound(s, t1, h1) && Sound(s, t2, h2) && e in t1[h1].entries && e.node.Subtree?
    ensures d in t2[h2].entries && d.name == e.name && d.node.Subtree?
  {
    AllSoundUnfold(s, t1, h1);
    var p, leaf, isFile := SomethingBelow(s, t1, e.node.hash);
    ExtendContent(s, t1, h1, e, p, leaf);
    var q := [e.name] + p;
    if isFile {
      FileBelowIsNonEmpty(s, t1, e.node.hash, p, leaf);
      assert HasFile(s, t2, h2, q, leaf);
      d :| d in t2[h2].entries && EntryHasFile(s, t2, d, q, leaf);
    } else {
      assert HasEmptyDir(s, t2, h2, q);
      d :| d in t2[h2].entries && EntryHasEmptyDir(s, t2, d, q);
    }
  }

  lemma ChildRank(s: Scheme, trees: Trees, h: Hash, e: TreeEntry)
    requires WellFounded(s) && Verified(s, trees, h) && e in trees[h].entries && e.node.Subtree?
    ensures s.rank(e.node.hash) < s.rank(h)
  {
    var k :| 0 <= k < |trees[h].entries| && trees[h].entries[k] == e;
  }

  /** What a caller sees of two versions: the file maps and the sets of empty directories. */
  ghost predicate SameResolution(a: Resolution, b: Resolution)
  {
    a.files == b.files && forall d :: d in a.dirs <==> d in b.dirs
  }

  lemma ResolutionShowsFiles(s: Scheme, t1: Trees, h1: Hash, t2: Trees, h2: Hash, p: Path, leaf: FileLeaf)
    requires WellFounded(s)
    requires Walk(s, t1, h1, "", false).Some? && Walk(s, t2, h2, "", false).Some?
    requires Walk(s, t1, h1, "", false).value.files == Walk(s, t2, h2, "", false).value.files
    requires HasFile(s, t1, h1, p, leaf)
    ensures HasFile(s, t2, h2, p, leaf)
  {
    WalkFindsAll(s, t1, h1, [], p, leaf);
    assert [] + p == p;
    var p2, leaf2 := WalkFindsOnly(s, t2, h2, [], false, Join(p));
    PathTail([], p, p2);
    FileKeyInjective(leaf.crc32, leaf.size, leaf2.crc32, leaf2.size);
  }

  lemma ResolutionShowsDirs(s: Scheme, t1: Trees, h1: Hash, t2: Trees, h2: Hash, p: Path)
    requires WellFounded(s) && p != []
    requires Walk(s, t1, h1, "", false).Some? && Walk(s, t2, h2, "", false).Some?
    requires forall d :: d in Walk(s, t1, h1, "", false).value.dirs ==> d in Walk(s, t2, h2, "", false).value.dirs
    requires HasEmptyDir(s, t1, h1, p)
    ensures HasEmptyDir(s, t2, h2, p)
  {
    assert [] + p == p;
    WalkDirsAll(s, t1, h1, [], false, p);
    var p2 := WalkDirsOnly(s, t2, h2, [], false, Join(p));
    PathTail([], p, p2);
  }

  /** An empty root resolves to nothing, and only an empty root does. */
  lemma EmptyRoots(s: Scheme, t1: Trees, h1: Hash, t2: Trees, h2: Hash)
    requires WellFounded(s) && AllSound(s, t1, h1) && AllSound(s, t2, h2)
    requires forall p: Path, leaf: FileLeaf :: HasFile(s, t2, h2, p, leaf) ==> HasFile(s, t1, h1, p, leaf)
    requires forall p: Path :: p != [] && HasEmptyDir(s, t2, h2, p) ==> HasEmptyDir(s, t1, h1, p)
    requires HasEmptyDir(s, t1, h1, [])
    ensures HasEmptyDir(s, t2, h2, [])
  {
    ReachableSelf(t2, h2);
    var p, leaf, isFile := SomethingBelow(s, t2, h2);
    if p != [] {
      assert false;
    }
  }

  /** Versions of any two stores resolve to the same snapshot exactly when their root hashes are equal. */
  lemma RootHashIffSnapshot(s: Scheme, t1: Trees, h1: Hash, t2: Trees, h2: Hash)
    requires WellFounded(s) && CollisionFree(s)
    requires Walk(s, t1, h1, "", false).Some? && Walk(s, t2, h2, "", false).Some?
    ensures h1 == h2 <==>
            SameResolution(Walk(s, t1, h1, "", false).value, Walk(s, t2, h2, "", false).value)
  {
    StrictSucceedsIff(s, t1, h1, "");
    StrictSucceedsIff(s, t2, h2, "");
    if h1 == h2 {
      SameHashAgrees(s, t1, t2, h1);
      AgreeWalk(s, t1, t2, h1, "");
    }
    if SameResolution(Walk(s, t1, h1, "", false).value, Walk(s, t2, h2, "", false).value) {
      forall p: Path, leaf: FileLeaf ensures HasFile(s, t1, h1, p, leaf) <==> HasFile(s, t2, h2, p, leaf) {
        if HasFile(s, t1, h1, p, leaf) { ResolutionShowsFiles(s, t1, h1, t2, h2, p, leaf); }
        if HasFile(s, t2, h2, p, leaf) { ResolutionShowsFiles(s, t2, h2, t1, h1, p, leaf); }
      }
      forall p: Path | p != [] ensures HasEmptyDir(s, t1, h1, p) <==> HasEmptyDir(s, t2, h2, p) {
        if HasEmptyDir(s, t1, h1, p) { ResolutionShowsDirs(s, t1, h1, t2, h2, p); }
        if HasEmptyDir(s, t2, h2, p) { ResolutionShowsDirs(s, t2, h2, t1, h1, p); }
      }
      if HasEmptyDir(s, t1, h1, []) { EmptyRoots(s, t1, h1, t2, h2); }
      if HasEmptyDir(s, t2, h2, []) { EmptyRoots(s, t2, h2, t1, h1); }
      SameContentSameHash(s, t1, h1, t2, h2);
    }
  }

  lemma {:induction false} SameHashAgrees(s: Scheme, t1: Trees, t2: Trees, h: Hash)
    requires WellFounded(s) && CollisionFree(s) && AllSound(s, t1, h) && AllSound(s, t2, h)
    ensures AgreeBelow(t1, t2, h)
    decreases s.rank(h)
  {
    AllSoundUnfold(s, t1, h);
    AllSoundUnfold(s, t2, h);
    assert t1[h] == t2[h];
    forall x | Reachable(t1, h, x) ensures x in t1 && x in t2 && t2[x] == t1[x] {
      if x != h {
        var c := ReachableSplit(t1, h, x);
        var e :| e in t1[h].entries && e.node == Subtree(c);
        ChildRank(s, t1, h, e);
        SameHashAgrees(s, t1, t2, c);
      }
    }
  }
}
