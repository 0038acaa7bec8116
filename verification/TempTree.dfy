/** The mutable directory tree of RunBackup (tsync/backup.go): insertion, then buildAndHash. */
module TempTree {
  import opened Base
  import opened Counting
  import opened Names
  import opened Metadata
  import opened Resolve
  import opened Builder
  import Canonical

  /** A tempDirNode; subdirs holds pointers, that is indices of the arena. */
  datatype TempDir = TempDir(files: map<string, FileLeaf>, subdirs: map<string, nat>)

  /** The nodes hold exactly these files and directories; a child comes after its parent. */
  ghost predicate Arena(nodes: seq<TempDir>, paths: seq<Path>, files: map<Path, FileLeaf>, dirs: set<Path>)
  {
    && |nodes| == |paths| > 0 && paths[0] == []
    && IsTree(files, dirs)
    && (forall d :: d in dirs <==> d in paths)
    && (forall i, j | 0 <= i < j < |paths| :: paths[i] != paths[j])
    && (forall i {:trigger NodeFits(nodes, paths, files, dirs, i)} | 0 <= i < |nodes| ::
         NodeFits(nodes, paths, files, dirs, i))
  }

  ghost predicate NodeFits(nodes: seq<TempDir>, paths: seq<Path>, files: map<Path, FileLeaf>, dirs: set<Path>, i: nat)
    requires i < |nodes| == |paths|
  {
    && (forall n: string :: n in nodes[i].files <==> Child(paths[i], n) in files)
    && (forall n | n in nodes[i].files :: files[Child(paths[i], n)] == nodes[i].files[n])
    && (forall n: string :: n in nodes[i].subdirs <==> Child(paths[i], n) in dirs)
    && (forall n | n in nodes[i].subdirs ::
          i < nodes[i].subdirs[n] < |nodes| && paths[nodes[i].subdirs[n]] == Child(paths[i], n))
  }

  lemma ArenaGrows(nodes: seq<TempDir>, paths: seq<Path>, files: map<Path, FileLeaf>, dirs: set<Path>, curr: nat,
                   part: string)
    requires Arena(nodes, paths, files, dirs) && curr < |nodes| && ValidName(part)
    requires Child(paths[curr], part) !in files && part !in nodes[curr].subdirs
    ensures var q := Child(paths[curr], part);
            Arena(nodes[curr := nodes[curr].(subdirs := nodes[curr].subdirs[part := |nodes|])]
                + [TempDir(map[], map[])],
                  paths + [q], files, dirs + {q})
  {
    var q := Child(paths[curr], part);
    var nodes' := nodes[curr := nodes[curr].(subdirs := nodes[curr].subdirs[part := |nodes|])]
        + [TempDir(map[], map[])];
    assert NodeFits(nodes, paths, files, dirs, curr);
    assert q !in dirs;
    TreeGainsDir(files, dirs, paths[curr], part);
    forall i | 0 <= i < |nodes'| ensures NodeFits(nodes', paths + [q], files, dirs + {q}, i) {
      if i < |nodes| {
        assert NodeFits(nodes, paths, files, dirs, i);
        forall n: string ensures Child(paths[i], n) == q <==> i == curr && n == part {
          ChildInjective(paths[i], n, paths[curr], part);
        }
      } else {
        forall n: string ensures Child(q, n) !in dirs + {q} && Child(q, n) !in files {
          assert Parent(Child(q, n)) == q;
          assert |Child(q, n)| == |q| + 1;
        }
      }
    }
  }

  lemma ArenaGainsFile(nodes: seq<TempDir>, paths: seq<Path>, files: map<Path, FileLeaf>, dirs: set<Path>, curr: nat,
                       part: string, leaf: FileLeaf)
    requires Arena(nodes, paths, files, dirs) && curr < |nodes| && ValidName(part) && part !in nodes[curr].subdirs
    ensures Arena(nodes[curr := nodes[curr].(files := nodes[curr].files[part := leaf])], paths,
                  files[Child(paths[curr], part) := leaf], dirs)
  {
    var q := Child(paths[curr], part);
    var nodes' := nodes[curr := nodes[curr].(files := nodes[curr].files[part := leaf])];
    assert NodeFits(nodes, paths, files, dirs, curr);
    TreeGainsFile(files, dirs, paths[curr], part, leaf);
    var files' := files[q := leaf];
    forall i | 0 <= i < |nodes'| ensures NodeFits(nodes', paths, files', dirs, i) {
      assert NodeFits(nodes, paths, files, dirs, i);
      forall n: string ensures Child(paths[i], n) == q <==> i == curr && n == part {
        ChildInjective(paths[i], n, paths[curr], part);
      }
    }
  }

  /** No file stands at any of the first i ancestors. */
  predicate ClearTo(files: map<Path, FileLeaf>, comps: Path, i: nat)
    requires i <= |comps|
  {
    forall k | 0 < k <= i :: comps[..k] !in files
  }

  class TempDirs {
    var nodes: seq<TempDir>  // in allocation order; nodes[0] is the root
    var trees: Trees
    ghost var paths: seq<Path>  // where each node stands
    ghost var files: map<Path, FileLeaf>
    ghost var dirs: set<Path>

    ghost predicate Valid()
      reads `nodes, `paths, `files, `dirs
    {
      Arena(nodes, paths, files, dirs)
    }

    constructor ()
      ensures Valid() && files == map[] && dirs == {[]} && trees == map[]
    {
      nodes, trees, paths, files, dirs := [TempDir(map[], map[])], map[], [[]], map[], {[]};
    }

    /** subdirs[part], allocated if missing. */
    method Descend(curr: nat, part: string) returns (next: nat)
      requires Valid() && curr < |nodes| && ValidName(part) && Child(paths[curr], part) !in files
      modifies this
      ensures Valid() && files == old(files) && trees == old(trees)
      ensures dirs == old(dirs) + {old(Child(paths[curr], part))}
      ensures next < |nodes| && paths[next] == old(Child(paths[curr], part))
    {
      ghost var q := Child(paths[curr], part);
      assert NodeFits(nodes, paths, files, dirs, curr);
      if part in nodes[curr].subdirs {
        assert q in dirs && dirs + {q} == dirs;
        return nodes[curr].subdirs[part];
      }
      ArenaGrows(nodes, paths, files, dirs, curr, part);
      next := |nodes|;
      nodes := nodes[curr := nodes[curr].(subdirs := nodes[curr].subdirs[part := next])] + [TempDir(map[], map[])];
      paths := paths + [q];
      dirs := dirs + {q};
    }

    /** "Add directories": runs before any file is added. */
    method AddDir(comps: Path)
      requires Valid() && ValidPath(comps) && files == map[]
      modifies this
      ensures Valid() && files == map[] && trees == old(trees)
      ensures dirs == old(dirs) + Prefixes(comps, |comps|)
    {
      var curr: nat := 0;
      var i := 0;
      assert comps[..0] == [];
      while i < |comps|
        invariant 0 <= i <= |comps| && Valid() && files == map[] && trees == old(trees)
        invariant curr < |nodes| && paths[curr] == comps[..i]
        invariant dirs == old(dirs) + Prefixes(comps, i)
      {
        assert comps[..i + 1] == Child(comps[..i], comps[i]);
        curr := Descend(curr, comps[i]);
        i := i + 1;
      }
    }

    /** "Add files": false is ErrPathCollision. */
    method AddFile(comps: Path, leaf: FileLeaf) returns (ok: bool)
      requires Valid() && ValidPath(comps) && comps != []
      modifies this
      ensures ok <==> comps !in old(dirs) && forall k | 0 < k < |comps| :: comps[..k] !in old(files)
      ensures ok ==> Valid() && files == old(files)[comps := leaf] && trees == old(trees)
      ensures ok ==> dirs == old(dirs) + Prefixes(comps, |comps| - 1)
    {
      var part := comps[|comps| - 1];
      var reached, curr := DescendToParent(comps);
      if !reached {
        return false;
      }
      assert comps == Child(paths[curr], part);
      assert NodeFits(nodes, paths, files, dirs, curr);
      PrefixesMember(comps, |comps| - 1, comps);
      if part in nodes[curr].subdirs {
        return false;
      }
      PutFile(curr, part, leaf);
      return true;
    }

    /** All components but the last; a file in the way is a collision. */
    method DescendToParent(comps: Path) returns (ok: bool, curr: nat)
      requires Valid() && ValidPath(comps) && comps != []
      modifies this
      ensures Valid() && files == old(files) && trees == old(trees)
      ensures ok <==> ClearTo(old(files), comps, |comps| - 1)
      ensures ok ==> curr < |nodes| && paths[curr] == comps[..|comps| - 1]
      ensures ok ==> dirs == old(dirs) + Prefixes(comps, |comps| - 1)
    {
      curr := 0;
      var i := 0;
      assert comps[..0] == [];
      while i < |comps| - 1
        invariant 0 <= i < |comps| && Valid() && files == old(files) && trees == old(trees)
        invariant curr < |nodes| && paths[curr] == comps[..i]
        invariant dirs == old(dirs) + Prefixes(comps, i)
        invariant ClearTo(old(files), comps, i)
      {
        assert comps[..i + 1] == Child(comps[..i], comps[i]);
        ok, curr := DescendUnlessFile(curr, comps[i]);
        if !ok {
          return;
        }
        i := i + 1;
      }
      return true, curr;
    }

    method DescendUnlessFile(curr: nat, part: string) returns (ok: bool, next: nat)
      requires Valid() && curr < |nodes| && ValidName(part)
      modifies this
      ensures Valid() && files == old(files) && trees == old(trees)
      ensures ok <==> old(Child(paths[curr], part)) !in files
      ensures ok ==> dirs == old(dirs) + {old(Child(paths[curr], part))}
      ensures ok ==> next < |nodes| && paths[next] == old(Child(paths[curr], part))
    {
      assert NodeFits(nodes, paths, files, dirs, curr);
      if part in nodes[curr].files {
        return false, curr;
      }
      next := Descend(curr, part);
      ok := true;
    }

    /** curr.files[part] = leaf. */
    method PutFile(curr: nat, part: string, leaf: FileLeaf)
      requires Valid() && curr < |nodes| && ValidName(part) && part !in nodes[curr].subdirs
      modifies this
      ensures Valid() && dirs == old(dirs) && trees == old(trees) && paths == old(paths)
      ensures files == old(files)[Child(paths[curr], part) := leaf]
    {
      ArenaGainsFile(nodes, paths, files, dirs, curr, part, leaf);
      nodes := nodes[curr := nodes[curr].(files := nodes[curr].files[part := leaf])];
      files := files[Child(paths[curr], part) := leaf];
    }

    /** buildAndHash: children first, entries in map order, then sorted, hashed and stored. */
    method BuildAndHash(s: Scheme, i: nat) returns (h: Hash)
      requires Valid() && i < |nodes| && CollisionFree(s) && Consistent(s, trees)
      modifies this`trees
      ensures Consistent(s, trees) && SubMap(old(trees), trees)
      ensures Encodes(s, trees, h, files, dirs, paths[i])
      decreases |nodes| - i, 1
    {
      var entries;
      ghost var hashes;
      entries, hashes := CollectEntries(s, i);
      var node := TreeNode(SortByName(entries));
      h := s.hash(node);
      ghost var before := trees;
      trees := trees[h := node];
      FinishNode(s, before, trees, h, entries, files, dirs, paths[i], nodes[i].files, hashes);
    }

    /** Both loops of buildAndHash: the files, then every subdirectory built and hashed. */
    method CollectEntries(s: Scheme, i: nat) returns (entries: seq<TreeEntry>, ghost hashes: map<string, Hash>)
      requires Valid() && i < |nodes| && CollisionFree(s) && Consistent(s, trees)
      modifies this`trees
      ensures Consistent(s, trees) && SubMap(old(trees), trees)
      ensures PartEntries(entries, nodes[i].files, hashes) && hashes.Keys == nodes[i].subdirs.Keys
      ensures AllEncode(s, trees, hashes, files, dirs, paths[i]) && NodeFits(nodes, paths, files, dirs, i)
      decreases |nodes| - i, 0
    {
      assert NodeFits(nodes, paths, files, dirs, i);
      entries := FileEntries(nodes[i].files);
      hashes := map[];
      var todo := nodes[i].subdirs.Keys;
      while todo != {}
        invariant todo <= nodes[i].subdirs.Keys && Consistent(s, trees) && SubMap(old(trees), trees)
        invariant hashes.Keys == nodes[i].subdirs.Keys - todo
        invariant AllEncode(s, trees, hashes, files, dirs, paths[i])
        invariant PartEntries(entries, nodes[i].files, hashes)
        decreases todo
      {
        var n :| n in todo;
        ghost var before := trees;
        var sub := BuildAndHash(s, nodes[i].subdirs[n]);
        AllEncodeAdd(s, before, trees, hashes, n, sub, files, dirs, paths[i]);
        assert Child(paths[i], n) in dirs && Child(paths[i], n) !in files;
        PartEntriesAdd(entries, nodes[i].files, hashes, n, sub);
        entries := entries + [TreeEntry(n, Subtree(sub))];
        hashes := hashes[n := sub];
        todo := todo - {n};
      }
    }
  }

  /** The node was stored: it encodes its directory. */
  lemma FinishNode(s: Scheme, before: Trees, trees: Trees, h: Hash, es: seq<TreeEntry>,
                   files: map<Path, FileLeaf>, dirs: set<Path>, at: Path, local: map<string, FileLeaf>,
                   hashes: map<string, Hash>)
    requires CollisionFree(s) && Consistent(s, before) && IsTree(files, dirs) && at in dirs
    requires h == s.hash(TreeNode(SortByName(es))) && trees == before[h := TreeNode(SortByName(es))]
    requires PartEntries(es, local, hashes) && AllEncode(s, before, hashes, files, dirs, at)
    requires forall n: string :: n in hashes <==> Child(at, n) in dirs
    requires forall n: string :: n in local <==> Child(at, n) in files
    requires forall n | n in local :: files[Child(at, n)] == local[n]
    ensures Consistent(s, trees) && SubMap(before, trees) && Encodes(s, trees, h, files, dirs, at)
  {
    assert SubMap(before, trees);
    AllEncodeMore(s, before, trees, hashes, files, dirs, at);
    SortedLevel(es, local, files, dirs, at, hashes);
    forall n | n in hashes ensures Encodes(s, trees, hashes[n], files, dirs, Child(at, n)) {
      assert AllEncode(s, trees, hashes, files, dirs, at);
    }
    LevelEncodes(s, trees, h, files, dirs, at, hashes);
  }

  ghost predicate AllEncode(s: Scheme, trees: Trees, hashes: map<string, Hash>, files: map<Path, FileLeaf>,
                            dirs: set<Path>, at: Path)
  {
    forall n {:trigger Encodes(s, trees, hashes[n], files, dirs, Child(at, n))} | n in hashes ::
      Encodes(s, trees, hashes[n], files, dirs, Child(at, n))
  }

  lemma AllEncodeMore(s: Scheme, trees: Trees, more: Trees, hashes: map<string, Hash>, files: map<Path, FileLeaf>,
                      dirs: set<Path>, at: Path)
    requires SubMap(trees, more) && AllEncode(s, trees, hashes, files, dirs, at)
    ensures AllEncode(s, more, hashes, files, dirs, at)
  {
    forall n | n in hashes ensures Encodes(s, more, hashes[n], files, dirs, Child(at, n)) {
      assert Encodes(s, trees, hashes[n], files, dirs, Child(at, n));
      SubMapEncodes(s, trees, more, hashes[n], files, dirs, Child(at, n));
    }
  }

  lemma AllEncodeAdd(s: Scheme, before: Trees, trees: Trees, hashes: map<string, Hash>, n: string, h: Hash,
                     files: map<Path, FileLeaf>, dirs: set<Path>, at: Path)
    requires SubMap(before, trees) && AllEncode(s, before, hashes, files, dirs, at)
    requires Encodes(s, trees, h, files, dirs, Child(at, n))
    ensures AllEncode(s, trees, hashes[n := h], files, dirs, at)
  {
    AllEncodeMore(s, before, trees, hashes, files, dirs, at);
    var more := hashes[n := h];
    forall m | m in more ensures Encodes(s, trees, more[m], files, dirs, Child(at, m)) {
      if m != n {
        assert Encodes(s, trees, hashes[m], files, dirs, Child(at, m));
      }
    }
  }

  /** The entries collected so far: every file, and the subdirectories hashed so far. */
  ghost predicate PartEntries(es: seq<TreeEntry>, files: map<string, FileLeaf>, hashes: map<string, Hash>)
  {
    && DistinctNames(es)
    && (forall e :: e in es <==>
          (e.name in files && e.node == File(files[e.name])) || (e.name in hashes && e.node == Subtree(hashes[e.name])))
  }

  lemma PartEntriesAdd(es: seq<TreeEntry>, files: map<string, FileLeaf>, hashes: map<string, Hash>, n: string, h: Hash)
    requires PartEntries(es, files, hashes) && n !in files && n !in hashes
    ensures PartEntries(es + [TreeEntry(n, Subtree(h))], files, hashes[n := h])
  {
    assert forall e | e in es :: e.name != n;
  }

  lemma SortedLevel(es: seq<TreeEntry>, local: map<string, FileLeaf>, files: map<Path, FileLeaf>, dirs: set<Path>,
                    at: Path, hashes: map<string, Hash>)
    requires PartEntries(es, local, hashes)
    requires forall n: string :: n in hashes <==> Child(at, n) in dirs
    requires forall n: string :: n in local <==> Child(at, n) in files
    requires forall n | n in local :: files[Child(at, n)] == local[n]
    ensures StrictlySorted(SortByName(es)) && LevelEntries(SortByName(es), at, files, dirs, hashes)
  {
    SortByNameSorts(es);
  }

  /** The directories on the way to comps[..k]. */
  ghost function Prefixes(comps: Path, k: nat): set<Path>
    requires k <= |comps|
  {
    if k == 0 then {[]} else Prefixes(comps, k - 1) + {comps[..k]}
  }

  lemma {:induction false} PrefixesMember(comps: Path, k: nat, q: Path)
    requires k <= |comps|
    ensures q in Prefixes(comps, k) <==> |q| <= k && Covers(q, comps)
  {
    if k > 0 {
      PrefixesMember(comps, k - 1, q);
    }
  }

  lemma TreeGainsDir(files: map<Path, FileLeaf>, dirs: set<Path>, p: Path, n: string)
    requires IsTree(files, dirs) && p in dirs && ValidName(n) && Child(p, n) !in files
    ensures IsTree(files, dirs + {Child(p, n)})
  {
    assert Parent(Child(p, n)) == p;
    assert ValidPath(p);
  }

  lemma TreeGainsFile(files: map<Path, FileLeaf>, dirs: set<Path>, p: Path, n: string, leaf: FileLeaf)
    requires IsTree(files, dirs) && p in dirs && ValidName(n) && Child(p, n) !in dirs
    ensures IsTree(files[Child(p, n) := leaf], dirs)
  {
    assert Parent(Child(p, n)) == p;
    assert ValidPath(p);
  }

  lemma ChildInjective(p: Path, n: string, q: Path, m: string)
    ensures Child(p, n) == Child(q, m) <==> p == q && n == m
  {
    if Child(p, n) == Child(q, m) {
      assert p == Child(p, n)[..|p|] == Child(q, m)[..|q|] == q;
      assert n == Child(p, n)[|p|] == Child(q, m)[|q|] == m;
    }
  }

  /** The loop over n.files. */
  method FileEntries(files: map<string, FileLeaf>) returns (entries: seq<TreeEntry>)
    ensures DistinctNames(entries)
    ensures forall e :: e in entries <==> e.name in files && e.node == File(files[e.name])
  {
    entries := [];
    var todo := files.Keys;
    while todo != {}
      invariant todo <= files.Keys && DistinctNames(entries)
      invariant forall e :: e in entries <==> e.name in files && e.name !in todo && e.node == File(files[e.name])
      decreases todo
    {
      var n :| n in todo;
      assert forall e | e in entries :: e.name != n;
      entries := entries + [TreeEntry(n, File(files[n]))];
      todo := todo - {n};
    }
  }

  // ---- The whole step of RunBackup ----

  /** Some file path equals or lies above another file or directory path. */
  ghost predicate Collides(files: set<Path>, dirs: set<Path>)
  {
    exists f, q :: f in files && ((q in dirs && Covers(f, q)) || (q in files && Above(f, q)))
  }

  /** A version root holds exactly these files, and as empty directories exactly the listed
      directories with nothing below them. */
  ghost predicate Represents(s: Scheme, trees: Trees, root: Hash, files: map<Path, FileLeaf>, dirs: set<Path>)
  {
    && Consistent(s, trees) && AllSound(s, trees, root)
    && (forall p: Path, leaf: FileLeaf {:trigger HasFile(s, trees, root, p, leaf)} ::
          HasFile(s, trees, root, p, leaf) <==> p in files && files[p] == leaf)
    && (forall p: Path {:trigger HasEmptyDir(s, trees, root, p)} | p != [] :: HasEmptyDir(s, trees, root, p) <==>
         p in dirs && !SomethingUnder(files.Keys, dirs, p))
  }

  ghost predicate SomethingUnder(files: set<Path>, dirs: set<Path>, p: Path)
  {
    exists q :: q in files + dirs && Above(p, q)
  }

  /** The directories insertion creates: every prefix of a directory, every proper prefix of a file. */
  ghost predicate IsClosure(files: set<Path>, dirs: set<Path>, all: set<Path>)
  {
    forall q {:trigger q in all} :: q in all <==> q == [] || CoversSome(q, dirs) || AboveSome(q, files)
  }

  ghost predicate CoversSome(q: Path, dirs: set<Path>)
  {
    exists d :: d in dirs && Covers(q, d)
  }

  ghost predicate AboveSome(q: Path, files: set<Path>)
  {
    exists f :: f in files && Above(q, f)
  }

  lemma ClosureMeansCollision(files: map<Path, FileLeaf>, dirs: set<Path>, all: set<Path>)
    requires IsTree(files, all) && IsClosure(files.Keys, dirs, all)
    ensures !Collides(files.Keys, dirs)
  {
  }

  /** A directory of the closure is empty exactly when it was listed and nothing lies under it. */
  lemma ClosureEmpties(files: map<Path, FileLeaf>, dirs: set<Path>, all: set<Path>, p: Path)
    requires IsTree(files, all) && IsClosure(files.Keys, dirs, all) && p != []
    ensures p in all && NothingBelow(files, all, p) <==> p in dirs && !SomethingUnder(files.Keys, dirs, p)
  {
    if SomethingUnder(files.Keys, dirs, p) {
      var q :| q in files.Keys + dirs && Above(p, q);
      assert q[..|p| + 1] == Child(p, q[|p|]);
      if q in dirs {
        assert Covers(Child(p, q[|p|]), q);
      } else if |q| == |p| + 1 {
        assert q == Child(p, q[|p|]);
      } else {
        assert Above(Child(p, q[|p|]), q);
      }
    }
    if !NothingBelow(files, all, p) {
      var n: string :| Child(p, n) in all || Child(p, n) in files;
      var c := Child(p, n);
      assert Above(p, c);
      if c in files {
        assert SomethingUnder(files.Keys, dirs, p);
      } else if CoversSome(c, dirs) {
        var d :| d in dirs && Covers(c, d);
        AboveCovers(p, c, d);
      } else {
        var f :| f in files.Keys && Above(c, f);
        AboveCovers(p, c, f);
      }
      assert SomethingUnder(files.Keys, dirs, p);
    }
    if p in all && p !in dirs {
      if CoversSome(p, dirs) {
        var d :| d in dirs && Covers(p, d);
        assert p == d || Above(p, d);
      }
      assert SomethingUnder(files.Keys, dirs, p);
    }
    if p in dirs {
      assert Covers(p, p);
    }
  }

  lemma AboveCovers(p: Path, c: Path, d: Path)
    requires Above(p, c) && Covers(c, d)
    ensures Above(p, d)
  {
    assert d[..|p|] == d[..|c|][..|p|] == c[..|p|];
  }

  /** Builds the directory tree of a run and stores its nodes; None is ErrPathCollision. */
  method BuildTree(s: Scheme, files: map<Path, FileLeaf>, dirs: set<Path>) returns (root: Option<Hash>, trees: Trees)
    requires CollisionFree(s)
    requires forall f | f in files :: ValidPath(f) && f != []
    requires forall d | d in dirs :: ValidPath(d)
    ensures root.None? <==> Collides(files.Keys, dirs)
    ensures root.Some? ==> Represents(s, trees, root.value, files, dirs)
  {
    var t := new TempDirs();
    AddDirs(t, dirs);
    var ok := AddFiles(t, files, dirs);
    if !ok {
      return None, map[];
    }
    ClosureMeansCollision(files, dirs, t.dirs);
    var h := t.BuildAndHash(s, 0);
    RootRepresents(s, t.trees, h, files, dirs, t.dirs);
    return Some(h), t.trees;
  }

  method AddDirs(t: TempDirs, dirs: set<Path>)
    requires t.Valid() && t.files == map[] && t.dirs == {[]} && t.trees == map[]
    requires forall d | d in dirs :: ValidPath(d)
    modifies t
    ensures t.Valid() && t.files == map[] && t.trees == map[] && IsClosure({}, dirs, t.dirs)
  {
    var todo := dirs;
    while todo != {}
      invariant t.Valid() && t.files == map[] && t.trees == map[] && todo <= dirs
      invariant IsClosure({}, dirs - todo, t.dirs)
      decreases todo
    {
      var d :| d in todo;
      ghost var before := t.dirs;
      if d != [] {
        t.AddDir(d);
      }
      DirClosureStep(d, before, dirs - todo, t.dirs);
      assert dirs - todo + {d} == dirs - (todo - {d});
      todo := todo - {d};
    }
    assert dirs - todo == dirs;
  }

  method AddNext(t: TempDirs, f: Path, leaf: FileLeaf, ghost done: set<Path>, ghost dirs: set<Path>,
                 ghost all: set<Path>)
    returns (ok: bool)
    requires t.Valid() && t.files.Keys == done && IsClosure(done, dirs, t.dirs)
    requires ValidPath(f) && f != [] && f in all && f !in done && done <= all
    modifies t
    ensures !ok ==> Collides(all, dirs)
    ensures ok ==> t.Valid() && t.files == old(t.files)[f := leaf]
    ensures ok ==> t.trees == old(t.trees) && IsClosure(done + {f}, dirs, t.dirs)
  {
    ok := t.AddFile(f, leaf);
    if ok {
      ClosureStep(f, old(t.dirs), done, dirs, t.dirs);
    } else {
      CollisionFound(f, old(t.dirs), done, dirs, all);
    }
  }

  ghost function Only(files: map<Path, FileLeaf>, done: set<Path>): (r: map<Path, FileLeaf>)
    ensures r.Keys == files.Keys * done
  {
    map f | f in files && f in done :: files[f]
  }

  lemma OnlyMore(files: map<Path, FileLeaf>, done: set<Path>, f: Path)
    requires f in files
    ensures Only(files, done + {f}) == Only(files, done)[f := files[f]]
  {
  }

  lemma OnlyAll(files: map<Path, FileLeaf>)
    ensures Only(files, files.Keys) == files && Only(files, {}) == map[]
  {
  }

  method AddFiles(t: TempDirs, files: map<Path, FileLeaf>, dirs: set<Path>) returns (ok: bool)
    requires t.Valid() && t.files == map[] && t.trees == map[] && IsClosure({}, dirs, t.dirs)
    requires forall f | f in files :: ValidPath(f) && f != []
    modifies t
    ensures !ok ==> Collides(files.Keys, dirs)
    ensures ok ==> t.Valid() && t.files == files && t.trees == map[] && IsClosure(files.Keys, dirs, t.dirs)
  {
    var left := files.Keys;
    ghost var done: set<Path> := {};
    OnlyAll(files);
    while left != {}
      invariant t.Valid() && t.trees == map[] && left <= files.Keys && done == files.Keys - left
      invariant t.files == Only(files, done)
      invariant IsClosure(done, dirs, t.dirs)
      decreases left
    {
      var f :| f in left;
      var added := AddNext(t, f, files[f], done, dirs, files.Keys);
      if !added {
        return false;
      }
      OnlyMore(files, done, f);
      done := done + {f};
      left := left - {f};
      assert done == files.Keys - left;
    }
    assert done == files.Keys;
    OnlyAll(files);
    return true;
  }

  lemma CollisionFound(f: Path, before: set<Path>, done: set<Path>, dirs: set<Path>, files: set<Path>)
    requires f in files && f !in done && done <= files && f != [] && IsClosure(done, dirs, before)
    requires f in before || exists k :: 0 < k < |f| && f[..k] in done
    ensures Collides(files, dirs)
  {
    if f in before {
      if CoversSome(f, dirs) {
        var d :| d in dirs && Covers(f, d);
      } else {
        var g :| g in done && Above(f, g);
        assert g in files;
      }
    } else {
      var k :| 0 < k < |f| && f[..k] in done;
      assert Above(f[..k], f);
    }
  }

  lemma DirClosureStep(d: Path, before: set<Path>, done: set<Path>, after: set<Path>)
    requires IsClosure({}, done, before)
    requires after == if d == [] then before else before + Prefixes(d, |d|)
    ensures IsClosure({}, done + {d}, after)
  {
    forall q ensures q in after <==> q == [] || CoversSome(q, done + {d}) || AboveSome(q, {}) {
      PrefixesMember(d, |d|, q);
      CoversSomeMore(q, done, d);
    }
  }

  lemma ClosureStep(f: Path, before: set<Path>, done: set<Path>, dirs: set<Path>, after: set<Path>)
    requires f != [] && IsClosure(done, dirs, before) && after == before + Prefixes(f, |f| - 1)
    ensures IsClosure(done + {f}, dirs, after)
  {
    forall q ensures q in after <==> q == [] || CoversSome(q, dirs) || AboveSome(q, done + {f}) {
      ClosureStepAt(q, f, before, done, dirs);
    }
  }

  lemma ClosureStepAt(q: Path, f: Path, before: set<Path>, done: set<Path>, dirs: set<Path>)
    requires f != [] && (q in before <==> q == [] || CoversSome(q, dirs) || AboveSome(q, done))
    ensures q in before + Prefixes(f, |f| - 1) <==> q == [] || CoversSome(q, dirs) || AboveSome(q, done + {f})
  {
    PrefixesMember(f, |f| - 1, q);
    AboveSomeMore(q, done, f);
  }

  lemma AboveSomeMore(q: Path, files: set<Path>, f: Path)
    ensures AboveSome(q, files + {f}) <==> AboveSome(q, files) || Above(q, f)
  {
    if Above(q, f) { assert f in files + {f}; }
    if AboveSome(q, files) {
      var g :| g in files && Above(q, g);
      assert g in files + {f};
    }
  }

  lemma CoversSomeMore(q: Path, dirs: set<Path>, d: Path)
    ensures CoversSome(q, dirs + {d}) <==> CoversSome(q, dirs) || Covers(q, d)
  {
    if Covers(q, d) { assert d in dirs + {d}; }
    if CoversSome(q, dirs) {
      var e :| e in dirs && Covers(q, e);
      assert e in dirs + {d};
    }
  }

  lemma RootRepresents(s: Scheme, trees: Trees, h: Hash, files: map<Path, FileLeaf>, dirs: set<Path>, all: set<Path>)
    requires IsTree(files, all) && IsClosure(files.Keys, dirs, all) && Consistent(s, trees)
    requires Encodes(s, trees, h, files, all, [])
    ensures Represents(s, trees, h, files, dirs)
  {
    forall p: Path, leaf: FileLeaf ensures HasFile(s, trees, h, p, leaf) <==> p in files && files[p] == leaf {
      assert [] + p == p;
    }
    forall p: Path | p != []
      ensures HasEmptyDir(s, trees, h, p) <==> p in dirs && !SomethingUnder(files.Keys, dirs, p)
    {
      assert [] + p == p;
      ClosureEmpties(files, dirs, all, p);
    }
  }

  // ---- Round trip ----

  /** Resolving a built version gives back exactly its files and its empty directories. */
  lemma RoundTrip(s: Scheme, trees: Trees, root: Hash, files: map<Path, FileLeaf>, dirs: set<Path>)
    requires WellFounded(s) && Represents(s, trees, root, files, dirs)
    requires forall f | f in files :: ValidPath(f)
    ensures Walk(s, trees, root, "", false).Some?
    ensures var r := Walk(s, trees, root, "", false).value;
            && (forall f | f in files :: Join(f) in r.files && r.files[Join(f)] == LeafKey(files[f]))
            && (forall q | q in r.files :: Split(q) in files && Join(Split(q)) == q)
            && (forall d | d in dirs && d != [] && !SomethingUnder(files.Keys, dirs, d) :: Join(d) in r.dirs)
            && (forall q | q in r.dirs ::
                 Split(q) in dirs && !SomethingUnder(files.Keys, dirs, Split(q)) && Join(Split(q)) == q)
            && Distinct(r.dirs)
  {
    StrictSucceedsIff(s, trees, root, "");
    var r := Walk(s, trees, root, "", false).value;
    forall f | f in files ensures Join(f) in r.files && r.files[Join(f)] == LeafKey(files[f]) {
      assert HasFile(s, trees, root, f, files[f]);
      WalkFindsAll(s, trees, root, [], f, files[f]);
      assert [] + f == f;
    }
    forall q | q in r.files ensures Split(q) in files && Join(Split(q)) == q {
      var p, leaf := WalkFindsOnly(s, trees, root, [], false, q);
      assert [] + p == p;
      FileBelowIsNonEmpty(s, trees, root, p, leaf);
      SplitJoin(p);
    }
    forall d | d in dirs && d != [] && !SomethingUnder(files.Keys, dirs, d) ensures Join(d) in r.dirs {
      assert HasEmptyDir(s, trees, root, d);
      WalkDirsAll(s, trees, root, [], false, d);
      assert [] + d == d;
    }
    forall q | q in r.dirs
      ensures Split(q) in dirs && !SomethingUnder(files.Keys, dirs, Split(q)) && Join(Split(q)) == q
    {
      var p := WalkDirsOnly(s, trees, root, [], false, q);
      assert [] + p == p;
      SplitJoin(p);
    }
    WalkDirsDistinct(s, trees, root, []);
  }

  // ---- The root hash as an identity of what was backed up ----

  /** The listed directories that a snapshot has to keep by themselves. */
  ghost predicate SameEmpties(f1: set<Path>, d1: set<Path>, f2: set<Path>, d2: set<Path>)
  {
    forall p: Path | p != [] :: (p in d1 && !SomethingUnder(f1, d1, p)) <==> (p in d2 && !SomethingUnder(f2, d2, p))
  }

  /** Two runs get the same root hash exactly when they stored the same leaves at the same paths and
      the same empty directories, in whatever order map iteration and workers delivered them. */
  lemma RootIsIdentity(s: Scheme, t1: Trees, r1: Hash, f1: map<Path, FileLeaf>, d1: set<Path>,
                       t2: Trees, r2: Hash, f2: map<Path, FileLeaf>, d2: set<Path>)
    requires WellFounded(s) && CollisionFree(s)
    requires Represents(s, t1, r1, f1, d1) && Represents(s, t2, r2, f2, d2)
    ensures r1 == r2 <==> f1 == f2 && SameEmpties(f1.Keys, d1, f2.Keys, d2)
  {
    if r1 == r2 {
      SameRootSameContent(s, t1, r1, f1, d1, t2, f2, d2);
    }
    if f1 == f2 && SameEmpties(f1.Keys, d1, f2.Keys, d2) {
      forall p: Path, leaf: FileLeaf ensures HasFile(s, t1, r1, p, leaf) <==> HasFile(s, t2, r2, p, leaf) {
      }
      forall p: Path | p != [] ensures HasEmptyDir(s, t1, r1, p) <==> HasEmptyDir(s, t2, r2, p) {
      }
      if HasEmptyDir(s, t1, r1, []) { Canonical.EmptyRoots(s, t1, r1, t2, r2); }
      if HasEmptyDir(s, t2, r2, []) { Canonical.EmptyRoots(s, t2, r2, t1, r1); }
      Canonical.SameContentSameHash(s, t1, r1, t2, r2);
    }
  }

  lemma SameRootSameContent(s: Scheme, t1: Trees, r: Hash, f1: map<Path, FileLeaf>, d1: set<Path>,
                            t2: Trees, f2: map<Path, FileLeaf>, d2: set<Path>)
    requires WellFounded(s) && CollisionFree(s)
    requires Represents(s, t1, r, f1, d1) && Represents(s, t2, r, f2, d2)
    ensures f1 == f2 && SameEmpties(f1.Keys, d1, f2.Keys, d2)
  {
    Canonical.SameHashAgrees(s, t1, t2, r);
    Canonical.SameHashAgrees(s, t2, t1, r);
    forall p | p in f1 ensures p in f2 && f2[p] == f1[p] {
      AgreeFile(s, t1, t2, r, p, f1[p]);
    }
    forall p | p in f2 ensures p in f1 {
      AgreeFile(s, t2, t1, r, p, f2[p]);
    }
    forall p: Path | p != []
      ensures (p in d1 && !SomethingUnder(f1.Keys, d1, p)) <==> (p in d2 && !SomethingUnder(f2.Keys, d2, p))
    {
      assert HasEmptyDir(s, t1, r, p) <==> HasEmptyDir(s, t2, r, p) by {
        AgreeEmptyDir(s, t1, t2, r, p);
        AgreeEmptyDir(s, t2, t1, r, p);
      }
    }
  }

  lemma {:induction false} AgreeFile(s: Scheme, trees: Trees, other: Trees, h: Hash, p: Path, leaf: FileLeaf)
    requires AgreeBelow(trees, other, h) && HasFile(s, trees, h, p, leaf)
    ensures HasFile(s, other, h, p, leaf)
    decreases |p|
  {
    ReachableSelf(trees, h);
    var e :| e in trees[h].entries && EntryHasFile(s, trees, e, p, leaf);
    if |p| > 1 {
      AgreeChild(trees, other, h, e.node.hash);
      AgreeFile(s, trees, other, e.node.hash, p[1..], leaf);
    }
    assert EntryHasFile(s, other, e, p, leaf);
  }

  lemma {:induction false} AgreeEmptyDir(s: Scheme, trees: Trees, other: Trees, h: Hash, p: Path)
    requires AgreeBelow(trees, other, h)
    ensures HasEmptyDir(s, trees, h, p) ==> HasEmptyDir(s, other, h, p)
    decreases |p|
  {
    if HasEmptyDir(s, trees, h, p) {
      ReachableSelf(trees, h);
      if p != [] {
        var e :| e in trees[h].entries && EntryHasEmptyDir(s, trees, e, p);
        AgreeChild(trees, other, h, e.node.hash);
        AgreeEmptyDir(s, trees, other, e.node.hash, p[1..]);
        assert EntryHasEmptyDir(s, other, e, p);
      }
    }
  }
}
