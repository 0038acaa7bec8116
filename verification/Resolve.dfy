/** ResolveVersionTree and walkTree (tsync/restore.go), strict and lenient. */
module Resolve {
  import opened Base
  import opened Counting
  import opened Names
  import opened Keys
  import opened Metadata

  /** filesResult and dirsResult. */
  datatype Resolution = Resolution(files: map<string, Key>, dirs: seq<string>)

  const Nothing := Resolution(map[], [])

  function Merge(a: Resolution, b: Resolution): Resolution
  {
    Resolution(a.files + b.files, a.dirs + b.dirs)
  }

  // ---- What the walk of one subtree contributes; None is ErrCorruptMetadata. ----

  function Walk(s: Scheme, trees: Trees, h: Hash, prefix: string, lenient: bool): Option<Resolution>
    requires WellFounded(s)
    decreases s.rank(h), 2, 0
  {
    if !Verified(s, trees, h) then (if lenient then Some(Nothing) else None)
    else if !lenient && !NeighboursSorted(trees[h].entries) then None
    else if trees[h].entries == [] && prefix != "" then Some(Resolution(map[], [prefix]))
    else WalkEntries(s, trees, trees[h], 0, prefix, lenient)
  }

  function WalkEntries(s: Scheme, trees: Trees, node: TreeNode, i: nat, prefix: string,
                       lenient: bool): Option<Resolution>
    requires WellFounded(s) && i <= |node.entries|
    decreases s.rank(s.hash(node)), 1, |node.entries| - i
  {
    if i == |node.entries| then Some(Nothing)
    else
      match WalkEntry(s, trees, node, i, prefix, lenient)
      case None => None
      case Some(first) =>
        match WalkEntries(s, trees, node, i + 1, prefix, lenient)
        case None => None
        case Some(rest) => Some(Merge(first, rest))
  }

  function WalkEntry(s: Scheme, trees: Trees, node: TreeNode, i: nat, prefix: string, lenient: bool): Option<Resolution>
    requires WellFounded(s) && i < |node.entries|
    decreases s.rank(s.hash(node)), 0, 0
  {
    var e := node.entries[i];
    if !GoodEntry(e) then (if lenient then Some(Nothing) else None)
    else if e.node.File? then Some(Resolution(map[Extend(prefix, e.name) := LeafKey(e.node.leaf)], []))
    else Walk(s, trees, e.node.hash, Extend(prefix, e.name), lenient)
  }

  // ---- The walk as the source runs it: shared result map and list, filled in place. ----

  class TreeWalker {
    var files: map<string, Key>
    var dirs: seq<string>

    constructor ()
      ensures files == map[] && dirs == []
    {
      files, dirs := map[], [];
    }

    ghost function Filled(): Resolution
      reads this
    {
      Resolution(files, dirs)
    }

    /** walkTree. It keeps no visited set; it ends because it descends only below verified nodes. */
    method WalkTree(s: Scheme, trees: Trees, h: Hash, prefix: string, lenient: bool) returns (ok: bool)
      requires WellFounded(s)
      modifies this
      ensures ok <==> Walk(s, trees, h, prefix, lenient).Some?
      ensures ok ==> Filled() == Merge(old(Filled()), Walk(s, trees, h, prefix, lenient).value)
      decreases s.rank(h), 2
    {
      MergeNothing(Filled());
      if h !in trees || s.hash(trees[h]) != h {
        return lenient;
      }
      var node := trees[h];
      var prev := "";
      var i := 0;
      while i < |node.entries|
        invariant 0 <= i <= |node.entries|
        invariant i > 0 ==> prev == node.entries[i - 1].name
        invariant forall j | 0 < j < i :: Less(node.entries[j - 1].name, node.entries[j].name)
      {
        if i > 0 && !Less(prev, node.entries[i].name) {
          if lenient {
            break;
          }
          return false;
        }
        prev := node.entries[i].name;
        i := i + 1;
      }
      if |node.entries| == 0 && prefix != "" {
        dirs := dirs + [prefix];
        assert files + map[] == files;
        return true;
      }
      ok := WalkAll(s, trees, node, prefix, lenient);
    }

    /** The loop over the entries. */
    method WalkAll(s: Scheme, trees: Trees, node: TreeNode, prefix: string, lenient: bool) returns (ok: bool)
      requires WellFounded(s)
      modifies this
      ensures ok <==> WalkEntries(s, trees, node, 0, prefix, lenient).Some?
      ensures ok ==> Filled() == Merge(old(Filled()), WalkEntries(s, trees, node, 0, prefix, lenient).value)
      decreases s.rank(s.hash(node)), 1
    {
      ghost var all := WalkEntries(s, trees, node, 0, prefix, lenient);
      ghost var seen := Nothing;
      MergeNothing(Filled());
      MergeNothing(if all.Some? then all.value else Nothing);
      var i := 0;
      while i < |node.entries|
        invariant 0 <= i <= |node.entries|
        invariant Filled() == Merge(old(Filled()), seen)
        invariant Continues(all, seen, WalkEntries(s, trees, node, i, prefix, lenient))
      {
        var visited := WalkOne(s, trees, node, i, prefix, lenient);
        if !visited {
          return false;
        }
        seen := Advance(s, trees, node, i, prefix, lenient, all, old(Filled()), seen);
        i := i + 1;
      }
      MergeNothing(seen);
      return true;
    }

    /** The loop body: one entry. */
    method WalkOne(s: Scheme, trees: Trees, node: TreeNode, i: nat, prefix: string, lenient: bool) returns (ok: bool)
      requires WellFounded(s) && i < |node.entries|
      modifies this
      ensures ok <==> WalkEntry(s, trees, node, i, prefix, lenient).Some?
      ensures ok ==> Filled() == Merge(old(Filled()), WalkEntry(s, trees, node, i, prefix, lenient).value)
      decreases s.rank(s.hash(node)), 0
    {
      MergeNothing(Filled());
      var e := node.entries[i];
      if !GoodEntry(e) {
        return lenient;
      }
      if e.node.File? {
        var path, key := Extend(prefix, e.name), LeafKey(e.node.leaf);
        assert files + map[path := key] == files[path := key] && dirs + [] == dirs;
        files := files[path := key];
        return true;
      }
      ok := WalkTree(s, trees, e.node.hash, Extend(prefix, e.name), lenient);
    }
  }

  /** What the whole loop yields, given what it has seen and what is still to come. */
  predicate Continues(all: Option<Resolution>, seen: Resolution, rest: Option<Resolution>)
  {
    match rest
    case None => all.None?
    case Some(r) => all == Some(Merge(seen, r))
  }

  lemma Advance(s: Scheme, trees: Trees, node: TreeNode, i: nat, prefix: string, lenient: bool,
                all: Option<Resolution>, before: Resolution, seen: Resolution) returns (more: Resolution)
    requires WellFounded(s) && i < |node.entries|
    requires Continues(all, seen, WalkEntries(s, trees, node, i, prefix, lenient))
    requires WalkEntry(s, trees, node, i, prefix, lenient).Some?
    ensures Continues(all, more, WalkEntries(s, trees, node, i + 1, prefix, lenient))
    ensures Merge(Merge(before, seen), WalkEntry(s, trees, node, i, prefix, lenient).value) == Merge(before, more)
  {
    var entry := WalkEntry(s, trees, node, i, prefix, lenient).value;
    var rest := WalkEntries(s, trees, node, i + 1, prefix, lenient);
    MergeAssociative(before, seen, entry);
    MergeAssociative(seen, entry, if rest.Some? then rest.value else Nothing);
    more := Merge(seen, entry);
  }

  lemma MergeAssociative(a: Resolution, b: Resolution, c: Resolution)
    ensures Merge(Merge(a, b), c) == Merge(a, Merge(b, c))
  {
    assert (a.files + b.files) + c.files == a.files + (b.files + c.files);
    assert (a.dirs + b.dirs) + c.dirs == a.dirs + (b.dirs + c.dirs);
  }

  lemma MergeNothing(a: Resolution)
    ensures Merge(a, Nothing) == a && Merge(Nothing, a) == a
  {
    assert a.files + map[] == a.files && map[] + a.files == a.files;
  }

  datatype Outcome = Resolved(files: map<string, Key>, emptyDirs: seq<string>) | VersionNotFound | CorruptMetadata

  method ResolveVersionTree(s: Scheme, md: BackupMetadata, id: VersionId, skipValidationErrors: bool)
    returns (r: Outcome)
    requires WellFounded(s)
    ensures r == ResolveVersion(s, md, id, skipValidationErrors)
  {
    if id !in md.versions {
      return VersionNotFound;
    }
    var w := new TreeWalker();
    var ok := w.WalkTree(s, md.trees, md.versions[id].root, "", skipValidationErrors);
    if !ok {
      return CorruptMetadata;
    }
    assert map[] + w.files == w.files;
    return Resolved(w.files, w.dirs);
  }

  function ResolveVersion(s: Scheme, md: BackupMetadata, id: VersionId, lenient: bool): Outcome
    requires WellFounded(s)
  {
    if id !in md.versions then VersionNotFound
    else
      match Walk(s, md.trees, md.versions[id].root, "", lenient)
      case None => CorruptMetadata
      case Some(r) => Resolved(r.files, r.dirs)
  }

  // ---- Independent meaning: a path names a leaf through verified nodes and good entries. ----

  ghost predicate HasFile(s: Scheme, trees: Trees, h: Hash, p: Path, leaf: FileLeaf)
    decreases |p|, 1
  {
    Verified(s, trees, h) && exists e | e in trees[h].entries :: EntryHasFile(s, trees, e, p, leaf)
  }

  ghost predicate EntryHasFile(s: Scheme, trees: Trees, e: TreeEntry, p: Path, leaf: FileLeaf)
    decreases |p|, 0
  {
    && p != [] && GoodEntry(e) && e.name == p[0]
    && if |p| == 1 then e.node == File(leaf) else e.node.Subtree? && HasFile(s, trees, e.node.hash, p[1..], leaf)
  }

  ghost predicate HasEmptyDir(s: Scheme, trees: Trees, h: Hash, p: Path)
    decreases |p|, 1
  {
    && Verified(s, trees, h)
    && if p == [] then trees[h].entries == [] else exists e | e in trees[h].entries :: EntryHasEmptyDir(s, trees, e, p)
  }

  ghost predicate EntryHasEmptyDir(s: Scheme, trees: Trees, e: TreeEntry, p: Path)
    requires p != []
    decreases |p|, 0
  {
    GoodEntry(e) && e.name == p[0] && e.node.Subtree? && HasEmptyDir(s, trees, e.node.hash, p[1..])
  }

  // ---- Success ----

  /** The strict walk succeeds exactly when everything below the root is sound. */
  lemma {:induction false} StrictSucceedsIff(s: Scheme, trees: Trees, h: Hash, prefix: string)
    requires WellFounded(s)
    ensures Walk(s, trees, h, prefix, false).Some? <==> AllSound(s, trees, h)
    decreases s.rank(h), 1, 0
  {
    AllSoundUnfold(s, trees, h);
    if Verified(s, trees, h) && NeighboursSorted(trees[h].entries) {
      NeighboursSuffice(trees[h].entries);
      StrictEntriesSucceedIff(s, trees, trees[h], 0, prefix);
    } else if Verified(s, trees, h) {
      assert !StrictlySorted(trees[h].entries);
    }
  }

  /** What a strict success has checked: every reachable node is there under its own hash, with names in
      strictly ascending byte order, each of them acceptable, and every entry a file or a hash. */
  lemma StrictChecks(s: Scheme, trees: Trees, h: Hash, x: Hash)
    requires WellFounded(s) && Walk(s, trees, h, "", false).Some? && Reachable(trees, h, x)
    ensures x in trees && s.hash(trees[x]) == x
    ensures var es := trees[x].entries;
            && (forall i, j | 0 <= i < j < |es| :: Less(es[i].name, es[j].name))
            && forall i | 0 <= i < |es| :: Acceptable(es[i].name) && NoSlash(es[i].name)
                                           && (es[i].node.File? || (es[i].node.Subtree? && es[i].node.hash != ""))
  {
    StrictSucceedsIff(s, trees, h, "");
    assert Sound(s, trees, x);
    var es := trees[x].entries;
    forall i | 0 <= i < |es| ensures GoodEntry(es[i]) {
      assert es[i] in es;
    }
  }

  lemma {:induction false} StrictEntriesSucceedIff(s: Scheme, trees: Trees, node: TreeNode, i: nat, prefix: string)
    requires WellFounded(s) && i <= |node.entries|
    ensures WalkEntries(s, trees, node, i, prefix, false).Some? <==>
            forall e | e in node.entries[i..] :: GoodEntry(e) && (e.node.Subtree? ==> AllSound(s, trees, e.node.hash))
    decreases s.rank(s.hash(node)), 0, |node.entries| - i
  {
    if i < |node.entries| {
      var e := node.entries[i];
      assert node.entries[i..] == [e] + node.entries[i + 1..];
      StrictEntriesSucceedIff(s, trees, node, i + 1, prefix);
      if GoodEntry(e) && e.node.Subtree? {
        StrictSucceedsIff(s, trees, e.node.hash, Extend(prefix, e.name));
      }
    }
  }

  /** The lenient walk never fails, and it changes nothing where the strict walk succeeds. */
  lemma {:induction false} LenientExtendsStrict(s: Scheme, trees: Trees, h: Hash, prefix: string)
    requires WellFounded(s)
    ensures Walk(s, trees, h, prefix, true).Some?
    ensures Walk(s, trees, h, prefix, false).Some? ==>
              Walk(s, trees, h, prefix, true) == Walk(s, trees, h, prefix, false)
    decreases s.rank(h), 1, 0
  {
    if Verified(s, trees, h) {
      LenientEntriesExtendStrict(s, trees, trees[h], 0, prefix);
    }
  }

  lemma {:induction false} LenientEntriesExtendStrict(s: Scheme, trees: Trees, node: TreeNode, i: nat, prefix: string)
    requires WellFounded(s) && i <= |node.entries|
    ensures WalkEntries(s, trees, node, i, prefix, true).Some?
    ensures WalkEntries(s, trees, node, i, prefix, false).Some? ==>
              WalkEntries(s, trees, node, i, prefix, true) == WalkEntries(s, trees, node, i, prefix, false)
    decreases s.rank(s.hash(node)), 0, |node.entries| - i
  {
    if i < |node.entries| {
      var e := node.entries[i];
      LenientEntriesExtendStrict(s, trees, node, i + 1, prefix);
      if GoodEntry(e) && e.node.Subtree? {
        LenientExtendsStrict(s, trees, e.node.hash, Extend(prefix, e.name));
      }
    }
  }

  // ---- Every reported file is really there (both modes) ----

  lemma {:induction false} WalkFindsOnly(s: Scheme, trees: Trees, h: Hash, pre: Path, lenient: bool, q: string)
    returns (p: Path, leaf: FileLeaf)
    requires WellFounded(s) && ValidPath(pre)
    requires var r := Walk(s, trees, h, Join(pre), lenient); r.Some? && q in r.value.files
    ensures ValidPath(p) && q == Join(pre + p) && HasFile(s, trees, h, p, leaf)
    ensures Walk(s, trees, h, Join(pre), lenient).value.files[q] == LeafKey(leaf)
    decreases s.rank(h), 1, 0
  {
    var e;
    e, p, leaf := EntriesFindOnly(s, trees, trees[h], 0, pre, lenient, q);
  }

  lemma {:induction false} EntriesFindOnly(s: Scheme, trees: Trees, node: TreeNode, i: nat, pre: Path, lenient: bool,
                                           q: string)
    returns (e: TreeEntry, p: Path, leaf: FileLeaf)
    requires WellFounded(s) && ValidPath(pre) && i <= |node.entries|
    requires var r := WalkEntries(s, trees, node, i, Join(pre), lenient); r.Some? && q in r.value.files
    ensures e in node.entries[i..] && EntryHasFile(s, trees, e, p, leaf)
    ensures ValidPath(p) && q == Join(pre + p)
    ensures WalkEntries(s, trees, node, i, Join(pre), lenient).value.files[q] == LeafKey(leaf)
    decreases s.rank(s.hash(node)), 0, |node.entries| - i
  {
    var rest := WalkEntries(s, trees, node, i + 1, Join(pre), lenient).value;
    if q in rest.files {
      e, p, leaf := EntriesFindOnly(s, trees, node, i + 1, pre, lenient, q);
    } else {
      e := node.entries[i];
      p, leaf := EntryFindsOnly(s, trees, node, i, pre, lenient, q);
    }
  }

  lemma {:induction false} EntryFindsOnly(s: Scheme, trees: Trees, node: TreeNode, i: nat, pre: Path, lenient: bool,
                                          q: string)
    returns (p: Path, leaf: FileLeaf)
    requires WellFounded(s) && ValidPath(pre) && i < |node.entries|
    requires var r := WalkEntry(s, trees, node, i, Join(pre), lenient); r.Some? && q in r.value.files
    ensures EntryHasFile(s, trees, node.entries[i], p, leaf)
    ensures ValidPath(p) && q == Join(pre + p)
    ensures WalkEntry(s, trees, node, i, Join(pre), lenient).value.files[q] == LeafKey(leaf)
    decreases s.rank(s.hash(node)), 0, 0
  {
    var e := node.entries[i];
    JoinExtend(pre, e.name);
    if e.node.File? {
      p, leaf := [e.name], e.node.leaf;
    } else {
      var tail: Path;
      tail, leaf := WalkFindsOnly(s, trees, e.node.hash, pre + [e.name], lenient, q);
      FileBelowIsNonEmpty(s, trees, e.node.hash, tail, leaf);
      p := [e.name] + tail;
      PathStep(pre, e.name, tail);
    }
  }

  lemma PathStep(pre: Path, name: string, tail: Path)
    requires ValidPath(pre) && ValidName(name)
    ensures (pre + [name]) + tail == pre + ([name] + tail)
    ensures ([name] + tail)[1..] == tail
    ensures ValidPath(pre + [name])
    ensures ValidPath(tail) ==> ValidPath([name] + tail)
  {
  }

  lemma PathTail(pre: Path, p: Path, q: Path)
    requires ValidPath(pre) && ValidPath(p) && ValidPath(q) && Join(pre + p) == Join(pre + q)
    ensures p == q
  {
    JoinInjective(pre + p, pre + q);
    assert p == (pre + p)[|pre|..] == (pre + q)[|pre|..] == q;
  }

  lemma FileBelowIsNonEmpty(s: Scheme, trees: Trees, h: Hash, p: Path, leaf: FileLeaf)
    requires HasFile(s, trees, h, p, leaf)
    ensures p != []
  {
  }

  // ---- Every path that is there is reported (both modes) ----

  lemma {:induction false} WalkKeepsAll(s: Scheme, trees: Trees, h: Hash, pre: Path, lenient: bool, p: Path,
                                        leaf: FileLeaf)
    requires WellFounded(s) && ValidPath(pre)
    requires Walk(s, trees, h, Join(pre), lenient).Some? && HasFile(s, trees, h, p, leaf)
    ensures ValidPath(p) && Join(pre + p) in Walk(s, trees, h, Join(pre), lenient).value.files
    decreases s.rank(h), 1, 0
  {
    var node := trees[h];
    var e :| e in node.entries && EntryHasFile(s, trees, e, p, leaf);
    var k :| 0 <= k < |node.entries| && node.entries[k] == e;
    EntriesKeepAll(s, trees, node, 0, k, pre, lenient, p, leaf);
  }

  lemma {:induction false} EntriesKeepAll(s: Scheme, trees: Trees, node: TreeNode, i: nat, k: nat, pre: Path,
                                          lenient: bool, p: Path, leaf: FileLeaf)
    requires WellFounded(s) && ValidPath(pre) && i <= k < |node.entries|
    requires WalkEntries(s, trees, node, i, Join(pre), lenient).Some?
    requires EntryHasFile(s, trees, node.entries[k], p, leaf)
    ensures ValidPath(p) && Join(pre + p) in WalkEntries(s, trees, node, i, Join(pre), lenient).value.files
    decreases s.rank(s.hash(node)), 0, |node.entries| - i
  {
    var e := node.entries[i];
    if i < k {
      EntriesKeepAll(s, trees, node, i + 1, k, pre, lenient, p, leaf);
    } else if |p| > 1 {
      JoinExtend(pre, e.name);
      PathStep(pre, e.name, p[1..]);
      WalkKeepsAll(s, trees, e.node.hash, pre + [e.name], lenient, p[1..], leaf);
      assert p == [e.name] + p[1..];
    } else {
      JoinExtend(pre, e.name);
      assert p == [e.name];
    }
  }

  /** In a sound tree a path names one leaf at most. */
  lemma {:induction false} LeafUnique(s: Scheme, trees: Trees, h: Hash, p: Path, a: FileLeaf, b: FileLeaf)
    requires WellFounded(s) && AllSound(s, trees, h) && HasFile(s, trees, h, p, a) && HasFile(s, trees, h, p, b)
    ensures a == b
    decreases |p|
  {
    var entries := trees[h].entries;
    ReachableSelf(trees, h);
    var i :| 0 <= i < |entries| && EntryHasFile(s, trees, entries[i], p, a);
    var j :| 0 <= j < |entries| && EntryHasFile(s, trees, entries[j], p, b);
    SortedDistinct(entries, i, j);
    if |p| > 1 {
      assert IsChild(trees, h, entries[i].node.hash);
      AllSoundChild(s, trees, h, entries[i].node.hash);
      LeafUnique(s, trees, entries[i].node.hash, p[1..], a, b);
    }
  }

  /** In strict mode every file that is there is reported with its own key. */
  lemma WalkFindsAll(s: Scheme, trees: Trees, h: Hash, pre: Path, p: Path, leaf: FileLeaf)
    requires WellFounded(s) && ValidPath(pre)
    requires Walk(s, trees, h, Join(pre), false).Some? && HasFile(s, trees, h, p, leaf)
    ensures ValidPath(p)
    ensures var files := Walk(s, trees, h, Join(pre), false).value.files;
            Join(pre + p) in files && files[Join(pre + p)] == LeafKey(leaf)
  {
    StrictSucceedsIff(s, trees, h, Join(pre));
    WalkKeepsAll(s, trees, h, pre, false, p, leaf);
    var q, other := WalkFindsOnly(s, trees, h, pre, false, Join(pre + p));
    PathTail(pre, p, q);
    LeafUnique(s, trees, h, p, leaf, other);
  }

  /** However damaged a store is, a lenient walk reports exactly the paths that lead through verified nodes and
      good entries to a leaf, each with the key of such a leaf. */
  lemma LenientFindsExactly(s: Scheme, trees: Trees, h: Hash, p: Path)
    requires WellFounded(s) && ValidPath(p)
    ensures Walk(s, trees, h, "", true).Some?
    ensures var files := Walk(s, trees, h, "", true).value.files;
            && (Join(p) in files <==> exists leaf :: HasFile(s, trees, h, p, leaf))
            && (Join(p) in files ==> exists leaf :: HasFile(s, trees, h, p, leaf) && files[Join(p)] == LeafKey(leaf))
  {
    LenientExtendsStrict(s, trees, h, "");
    var files := Walk(s, trees, h, "", true).value.files;
    assert [] + p == p && Join([]) == "";
    if Join(p) in files {
      var q, leaf := WalkFindsOnly(s, trees, h, [], true, Join(p));
      PathTail([], p, q);
      assert HasFile(s, trees, h, p, leaf);
    } else {
      forall leaf | HasFile(s, trees, h, p, leaf) ensures false {
        WalkKeepsAll(s, trees, h, [], true, p, leaf);
      }
    }
  }

  // ---- Empty directories: reported, once each, exactly where they are ----

  lemma {:induction false} WalkDirsOnly(s: Scheme, trees: Trees, h: Hash, pre: Path, lenient: bool, q: string)
    returns (p: Path)
    requires WellFounded(s) && ValidPath(pre)
    requires var r := Walk(s, trees, h, Join(pre), lenient); r.Some? && q in r.value.dirs
    ensures ValidPath(p) && pre + p != [] && q == Join(pre + p) && HasEmptyDir(s, trees, h, p)
    decreases s.rank(h), 1, 0
  {
    JoinNonEmpty(pre);
    if trees[h].entries == [] && Join(pre) != "" {
      p := [];
      assert pre + [] == pre;
    } else {
      var e;
      e, p := EntriesDirsOnly(s, trees, trees[h], 0, pre, lenient, q);
    }
  }

  lemma {:induction false} EntriesDirsOnly(s: Scheme, trees: Trees, node: TreeNode, i: nat, pre: Path, lenient: bool,
                                           q: string)
    returns (e: TreeEntry, p: Path)
    requires WellFounded(s) && ValidPath(pre) && i <= |node.entries|
    requires var r := WalkEntries(s, trees, node, i, Join(pre), lenient); r.Some? && q in r.value.dirs
    ensures e in node.entries[i..] && p != [] && EntryHasEmptyDir(s, trees, e, p)
    ensures ValidPath(p) && q == Join(pre + p)
    decreases s.rank(s.hash(node)), 0, |node.entries| - i
  {
    e := node.entries[i];
    if q in WalkEntry(s, trees, node, i, Join(pre), lenient).value.dirs {
      JoinExtend(pre, e.name);
      var tail := WalkDirsOnly(s, trees, e.node.hash, pre + [e.name], lenient, q);
      p := [e.name] + tail;
      assert pre + p == (pre + [e.name]) + tail && p[1..] == tail;
    } else {
      e, p := EntriesDirsOnly(s, trees, node, i + 1, pre, lenient, q);
    }
  }

  lemma {:induction false} WalkDirsAll(s: Scheme, trees: Trees, h: Hash, pre: Path, lenient: bool, p: Path)
    requires WellFounded(s) && ValidPath(pre) && pre + p != []
    requires Walk(s, trees, h, Join(pre), lenient).Some? && HasEmptyDir(s, trees, h, p)
    ensures ValidPath(p) && Join(pre + p) in Walk(s, trees, h, Join(pre), lenient).value.dirs
    decreases s.rank(h), 1, 0
  {
    JoinNonEmpty(pre);
    if p == [] {
      assert pre + p == pre;
    } else {
      var node := trees[h];
      var e :| e in node.entries && EntryHasEmptyDir(s, trees, e, p);
      var k :| 0 <= k < |node.entries| && node.entries[k] == e;
      EntriesDirsAll(s, trees, node, 0, k, pre, lenient, p);
    }
  }

  lemma {:induction false} EntriesDirsAll(s: Scheme, trees: Trees, node: TreeNode, i: nat, k: nat, pre: Path,
                                          lenient: bool, p: Path)
    requires WellFounded(s) && ValidPath(pre) && i <= k < |node.entries| && p != []
    requires WalkEntries(s, trees, node, i, Join(pre), lenient).Some?
    requires EntryHasEmptyDir(s, trees, node.entries[k], p)
    ensures ValidPath(p) && Join(pre + p) in WalkEntries(s, trees, node, i, Join(pre), lenient).value.dirs
    decreases s.rank(s.hash(node)), 0, |node.entries| - i
  {
    var e := node.entries[i];
    if i < k {
      EntriesDirsAll(s, trees, node, i + 1, k, pre, lenient, p);
    } else {
      JoinExtend(pre, e.name);
      WalkDirsAll(s, trees, e.node.hash, pre + [e.name], lenient, p[1..]);
      assert pre + p == (pre + [e.name]) + p[1..];
    }
  }

  /** And exactly the empty directories that such a path leads to. */
  lemma LenientDirsExactly(s: Scheme, trees: Trees, h: Hash, p: Path)
    requires WellFounded(s) && ValidPath(p) && p != []
    ensures Walk(s, trees, h, "", true).Some?
    ensures Join(p) in Walk(s, trees, h, "", true).value.dirs <==> HasEmptyDir(s, trees, h, p)
  {
    LenientExtendsStrict(s, trees, h, "");
    assert [] + p == p && Join([]) == "";
    if Join(p) in Walk(s, trees, h, "", true).value.dirs {
      var q := WalkDirsOnly(s, trees, h, [], true, Join(p));
      PathTail([], p, q);
    }
    if HasEmptyDir(s, trees, h, p) {
      WalkDirsAll(s, trees, h, [], true, p);
    }
  }

  lemma {:induction false} WalkDirsDistinct(s: Scheme, trees: Trees, h: Hash, pre: Path)
    requires WellFounded(s) && ValidPath(pre) && Walk(s, trees, h, Join(pre), false).Some?
    ensures Distinct(Walk(s, trees, h, Join(pre), false).value.dirs)
    decreases s.rank(h), 1, 0
  {
    if trees[h].entries != [] || Join(pre) == "" {
      NeighboursSuffice(trees[h].entries);
      EntriesDirsDistinct(s, trees, trees[h], 0, pre);
    }
  }

  lemma {:induction false} EntriesDirsDistinct(s: Scheme, trees: Trees, node: TreeNode, i: nat, pre: Path)
    requires WellFounded(s) && ValidPath(pre) && i <= |node.entries| && StrictlySorted(node.entries)
    requires WalkEntries(s, trees, node, i, Join(pre), false).Some?
    ensures Distinct(WalkEntries(s, trees, node, i, Join(pre), false).value.dirs)
    decreases s.rank(s.hash(node)), 0, |node.entries| - i
  {
    if i < |node.entries| {
      var e := node.entries[i];
      EntriesDirsDistinct(s, trees, node, i + 1, pre);
      JoinExtend(pre, e.name);
      if e.node.Subtree? {
        PathStep(pre, e.name, []);
        WalkDirsDistinct(s, trees, e.node.hash, pre + [e.name]);
        forall q | q in WalkEntry(s, trees, node, i, Join(pre), false).value.dirs
          ensures q !in WalkEntries(s, trees, node, i + 1, Join(pre), false).value.dirs
        {
          DirsOfEntriesApart(s, trees, node, i, pre, q);
        }
        DistinctConcat(WalkEntry(s, trees, node, i, Join(pre), false).value.dirs,
                       WalkEntries(s, trees, node, i + 1, Join(pre), false).value.dirs);
      }
    }
  }

  /** Later entries have other names, so they report other directories. */
  lemma {:induction false} DirsOfEntriesApart(s: Scheme, trees: Trees, node: TreeNode, i: nat, pre: Path, q: string)
    requires WellFounded(s) && ValidPath(pre) && i < |node.entries| && StrictlySorted(node.entries)
    requires WalkEntries(s, trees, node, i, Join(pre), false).Some?
    requires q in WalkEntry(s, trees, node, i, Join(pre), false).value.dirs
    ensures q !in WalkEntries(s, trees, node, i + 1, Join(pre), false).value.dirs
  {
    var e := node.entries[i];
    if q in WalkEntries(s, trees, node, i + 1, Join(pre), false).value.dirs {
      JoinExtend(pre, e.name);
      PathStep(pre, e.name, []);
      var p1 := WalkDirsOnly(s, trees, e.node.hash, pre + [e.name], false, q);
      var e2, p2 := EntriesDirsOnly(s, trees, node, i + 1, pre, false, q);
      PathStep(pre, e.name, p1);
      PathTail(pre, [e.name] + p1, p2);
      var j :| i + 1 <= j < |node.entries| && node.entries[j] == e2;
      SortedDistinct(node.entries, i, j);
      assert false;
    }
  }

  lemma DistinctConcat(a: seq<string>, b: seq<string>)
    requires Distinct(a) && Distinct(b) && forall q | q in a :: q !in b
    ensures Distinct(a + b)
  {
    var c := a + b;
    forall i, j | 0 <= i < j < |c| ensures c[i] != c[j] {
      if i < |a| <= j {
        assert c[i] in a && c[j] in b;
      }
    }
  }

  // ---- No resolved path leaves the directory it is restored to ----

  /** Whatever the store holds, in either mode: between its slashes a resolved path has only names of 1 to 255
      bytes without NUL, and no "." or "..". */
  lemma ResolvedPathsSafe(s: Scheme, trees: Trees, h: Hash, lenient: bool, q: string, c: string)
    requires WellFounded(s)
    requires var r := Walk(s, trees, h, "", lenient); r.Some? && (q in r.value.files || q in r.value.dirs)
    requires Component(q, c)
    ensures Acceptable(c)
  {
    var r := Walk(s, trees, h, "", lenient).value;
    var p: Path;
    if q in r.files {
      var leaf;
      p, leaf := WalkFindsOnly(s, trees, h, [], lenient, q);
      FileBelowIsNonEmpty(s, trees, h, p, leaf);
    } else {
      p := WalkDirsOnly(s, trees, h, [], lenient, q);
    }
    assert [] + p == p;
    SplitJoin(p);
    ValidPathIff(q);
  }

  // ---- Files and reachability ----

  /** A path to a leaf passes through a reachable node that holds the leaf. */
  lemma {:induction false} FileIsInReachableNode(s: Scheme, trees: Trees, h: Hash, p: Path, leaf: FileLeaf)
    returns (x: Hash, e: TreeEntry)
    requires HasFile(s, trees, h, p, leaf)
    ensures Reachable(trees, h, x) && x in trees && e in trees[x].entries && e.node == File(leaf)
    decreases |p|
  {
    e :| e in trees[h].entries && EntryHasFile(s, trees, e, p, leaf);
    if |p| == 1 {
      x := h;
      ReachableSelf(trees, h);
    } else {
      var c := e.node.hash;
      assert IsChild(trees, h, c);
      x, e := FileIsInReachableNode(s, trees, c, p[1..], leaf);
      ReachableStep(trees, h, c, x);
    }
  }

  /** In a sound tree every leaf of a reachable node has a path. */
  lemma {:induction false} ReachableLeafHasPath(s: Scheme, trees: Trees, h: Hash, x: Hash, e: TreeEntry)
    returns (p: Path)
    requires WellFounded(s) && AllSound(s, trees, h) && Reachable(trees, h, x)
    requires x in trees && e in trees[x].entries && e.node.File?
    ensures HasFile(s, trees, h, p, e.node.leaf)
    decreases s.rank(h)
  {
    ReachableSelf(trees, h);
    if x == h {
      p := [e.name];
      assert EntryHasFile(s, trees, e, p, e.node.leaf);
    } else {
      var c := ReachableSplit(trees, h, x);
      var d :| d in trees[h].entries && d.node == Subtree(c);
      AllSoundChild(s, trees, h, c);
      assert s.rank(c) < s.rank(h) by {
        var k :| 0 <= k < |trees[h].entries| && trees[h].entries[k] == d;
      }
      var tail := ReachableLeafHasPath(s, trees, c, x, e);
      p := [d.name] + tail;
      assert p[1..] == tail;
      FileBelowIsNonEmpty(s, trees, c, tail, e.node.leaf);
      assert EntryHasFile(s, trees, d, p, e.node.leaf);
    }
  }

  // ---- Other tree maps ----

  /** Where two maps agree below a root they resolve it alike. */
  lemma {:induction false} AgreeWalk(s: Scheme, trees: Trees, other: Trees, h: Hash, prefix: string)
    requires WellFounded(s) && AllSound(s, trees, h) && AgreeBelow(trees, other, h)
    ensures Walk(s, other, h, prefix, false) == Walk(s, trees, h, prefix, false)
    decreases s.rank(h), 1, 0
  {
    ReachableSelf(trees, h);
    AgreeWalkEntries(s, trees, other, h, 0, prefix);
  }

  lemma {:induction false} AgreeWalkEntries(s: Scheme, trees: Trees, other: Trees, h: Hash, i: nat, prefix: string)
    requires WellFounded(s) && AllSound(s, trees, h) && AgreeBelow(trees, other, h)
    requires Verified(s, trees, h) && i <= |trees[h].entries|
    ensures WalkEntries(s, other, trees[h], i, prefix, false) == WalkEntries(s, trees, trees[h], i, prefix, false)
    decreases s.rank(h), 0, |trees[h].entries| - i
  {
    if i < |trees[h].entries| {
      var e := trees[h].entries[i];
      AgreeWalkEntries(s, trees, other, h, i + 1, prefix);
      if GoodEntry(e) && e.node.Subtree? {
        assert IsChild(trees, h, e.node.hash);
        AllSoundChild(s, trees, h, e.node.hash);
        AgreeChild(trees, other, h, e.node.hash);
        AgreeWalk(s, trees, other, e.node.hash, Extend(prefix, e.name));
      }
    }
  }
}
