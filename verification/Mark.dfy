/** walkCollect (tsync/client.go): the mark phase shared by DeleteVersion and GC. */
module Mark {
  import opened Names
  import opened Keys
  import opened Metadata
  import opened Resolve

  function KeysIn(trees: Trees, h: Hash): set<Key>
  {
    if h in trees then set e | e in trees[h].entries && e.node.File? :: LeafKey(e.node.leaf) else {}
  }

  /** A marked node is done when it is sound, its children are marked and its keys are recorded. */
  ghost predicate Done(s: Scheme, trees: Trees, marked: set<Hash>, keys: set<Key>, x: Hash)
  {
    && Sound(s, trees, x)
    && (forall c | IsChild(trees, x, c) :: c in marked)
    && KeysIn(trees, x) <= keys
  }

  /** From marks (t0, f0) to marks (t1, f1): nothing is lost, all that is new is reachable from h
      and every new key stands in a newly marked node. */
  ghost predicate Explained(trees: Trees, h: Hash, t0: set<Hash>, f0: set<Key>, t1: set<Hash>, f1: set<Key>)
  {
    && t0 <= t1 && f0 <= f1
    && (forall x {:trigger Reachable(trees, h, x)} | x in t1 - t0 :: Reachable(trees, h, x))
    && (forall k {:trigger KeyStandsIn(trees, t1 - t0, k)} | k in f1 - f0 :: KeyStandsIn(trees, t1 - t0, k))
  }

  ghost predicate KeyStandsIn(trees: Trees, within: set<Hash>, k: Key)
  {
    exists x :: x in within && k in KeysIn(trees, x)
  }

  ghost predicate AllDone(s: Scheme, trees: Trees, which: set<Hash>, marked: set<Hash>, keys: set<Key>)
  {
    forall x {:trigger Done(s, trees, marked, keys, x)} | x in which :: Done(s, trees, marked, keys, x)
  }

  ghost predicate IsFreshChain(trees: Trees, before: set<Hash>, chain: seq<Hash>)
  {
    IsChain(trees, chain) && forall i | 0 <= i < |chain| :: chain[i] !in before
  }

  /** x can be reached from h without passing through a hash that was marked before. */
  ghost predicate ReachableFresh(trees: Trees, before: set<Hash>, h: Hash, x: Hash)
  {
    exists chain: seq<Hash> :: IsFreshChain(trees, before, chain) && chain[0] == h && chain[|chain| - 1] == x
  }

  /** What a walk from h that stops at earlier marks must trip over. */
  ghost predicate SomeUnsound(s: Scheme, trees: Trees, before: set<Hash>, h: Hash)
  {
    exists x :: ReachableFresh(trees, before, h, x) && !Sound(s, trees, x)
  }

  lemma FreshSelf(trees: Trees, before: set<Hash>, h: Hash)
    requires h !in before
    ensures ReachableFresh(trees, before, h, h)
  {
    var chain := [h];
    assert IsFreshChain(trees, before, chain);
  }

  lemma UnsoundBelow(s: Scheme, trees: Trees, h: Hash, c: Hash, t0: set<Hash>, t1: set<Hash>)
    requires IsChild(trees, h, c) && h !in t0 && t0 <= t1 && SomeUnsound(s, trees, t1, c)
    ensures SomeUnsound(s, trees, t0, h)
  {
    var x :| ReachableFresh(trees, t1, c, x) && !Sound(s, trees, x);
    var chain: seq<Hash> :| IsFreshChain(trees, t1, chain) && chain[0] == c && chain[|chain| - 1] == x;
    var longer := [h] + chain;
    assert forall i | 0 < i < |longer| :: longer[i] == chain[i - 1];
    assert IsFreshChain(trees, t0, longer) && longer[|longer| - 1] == x;
  }

  lemma UnsoundIsReachable(s: Scheme, trees: Trees, before: set<Hash>, h: Hash)
    requires SomeUnsound(s, trees, before, h)
    ensures !AllSound(s, trees, h)
  {
    var x :| ReachableFresh(trees, before, h, x) && !Sound(s, trees, x);
    assert Reachable(trees, h, x);
  }

  /** A finished walk has marked every such node, and found it sound. */
  lemma DoneMeansSound(s: Scheme, trees: Trees, h: Hash, t0: set<Hash>, t1: set<Hash>, f1: set<Key>)
    requires h in t1 && AllDone(s, trees, t1 - t0, t1, f1)
    ensures !SomeUnsound(s, trees, t0, h)
  {
    forall x | ReachableFresh(trees, t0, h, x) ensures Sound(s, trees, x) {
      var chain: seq<Hash> :| IsFreshChain(trees, t0, chain) && chain[0] == h && chain[|chain| - 1] == x;
      ChainIsMarked(s, trees, chain, |chain| - 1, t0, t1, f1);
      assert Done(s, trees, t1, f1, x);
    }
  }

  lemma {:induction false} ChainIsMarked(s: Scheme, trees: Trees, chain: seq<Hash>, i: nat, t0: set<Hash>,
                                         t1: set<Hash>, f1: set<Key>)
    requires AllDone(s, trees, t1 - t0, t1, f1) && IsFreshChain(trees, t0, chain) && chain[0] in t1 && i < |chain|
    ensures chain[i] in t1 - t0
  {
    if i > 0 {
      ChainIsMarked(s, trees, chain, i - 1, t0, t1, f1);
      assert Done(s, trees, t1, f1, chain[i - 1]);
      assert IsChild(trees, chain[i - 1], chain[i]);
    }
  }

  lemma AfterChild(s: Scheme, trees: Trees, h: Hash, c: Hash,
                   t0: set<Hash>, f0: set<Key>, t1: set<Hash>, f1: set<Key>, t2: set<Hash>, f2: set<Key>)
    requires IsChild(trees, h, c)
    requires Explained(trees, h, t0, f0, t1, f1) && Explained(trees, c, t1, f1, t2, f2)
    ensures Explained(trees, h, t0, f0, t2, f2)
    ensures AllDone(s, trees, t1 - t0 - {h}, t1, f1) && AllDone(s, trees, t2 - t1, t2, f2) ==>
              AllDone(s, trees, t2 - t0 - {h}, t2, f2)
  {
    forall x | Reachable(trees, c, x) ensures Reachable(trees, h, x) {
      ReachableStep(trees, h, c, x);
    }
    forall k | k in f2 - f0 ensures KeyStandsIn(trees, t2 - t0, k) {
      if k in f1 {
        assert k in f1 - f0;
        WidenKey(trees, t1 - t0, t2 - t0, k);
      } else {
        assert k in f2 - f1;
        WidenKey(trees, t2 - t1, t2 - t0, k);
      }
    }
    if AllDone(s, trees, t1 - t0 - {h}, t1, f1) && AllDone(s, trees, t2 - t1, t2, f2) {
      forall x | x in t2 - t0 - {h} ensures Done(s, trees, t2, f2, x) {
        if x in t1 {
          assert x in t1 - t0 - {h};
          assert Done(s, trees, t1, f1, x);
        } else {
          assert x in t2 - t1;
        }
      }
    }
  }

  lemma WidenKey(trees: Trees, within: set<Hash>, wider: set<Hash>, k: Key)
    requires KeyStandsIn(trees, within, k) && within <= wider
    ensures KeyStandsIn(trees, wider, k)
  {
    var x :| x in within && k in KeysIn(trees, x);
    assert x in wider;
  }

  class Marker {
    var liveTrees: set<Hash>
    var liveFiles: set<Key>
    ghost var entered: nat  // how many node bodies were entered

    /** Every body is entered at most once: the entries made are as many as the hashes marked. */
    ghost predicate Valid()
      reads this
    {
      entered == |liveTrees|
    }

    constructor ()
      ensures liveTrees == {} && liveFiles == {} && Valid()
    {
      liveTrees, liveFiles, entered := {}, {}, 0;
    }

    /** Ends for every tree map, cyclic or damaged ones included: each call marks one more hash. */
    method WalkCollect(s: Scheme, trees: Trees, h: Hash) returns (ok: bool)
      requires Valid()
      modifies this
      ensures Valid() && h in liveTrees
      ensures Explained(trees, h, old(liveTrees), old(liveFiles), liveTrees, liveFiles)
      ensures ok ==> AllDone(s, trees, liveTrees - old(liveTrees), liveTrees, liveFiles)
      ensures ok <==> !SomeUnsound(s, trees, old(liveTrees), h)
      decreases trees.Keys - liveTrees, 0
    {
      ReachableSelf(trees, h);
      if h in liveTrees {
        DoneMeansSound(s, trees, h, liveTrees, liveTrees, liveFiles);
        return true;
      }
      FreshSelf(trees, liveTrees, h);
      liveTrees := liveTrees + {h};
      entered := entered + 1;
      if h !in trees || s.hash(trees[h]) != h {
        assert !Sound(s, trees, h);
        return false;
      }
      var sorted := CheckOrder(trees[h].entries);
      if !sorted {
        assert !Sound(s, trees, h);
        return false;
      }
      NeighboursSuffice(trees[h].entries);
      ok := CollectEntries(s, trees, h, old(liveTrees), old(liveFiles));
      if ok {
        DoneMeansSound(s, trees, h, old(liveTrees), liveTrees, liveFiles);
      }
    }

    /** The loop over the entries of a verified, sorted node that was just marked. */
    method CollectEntries(s: Scheme, trees: Trees, h: Hash, ghost t0: set<Hash>, ghost f0: set<Key>) returns (ok: bool)
      requires Valid() && Verified(s, trees, h) && StrictlySorted(trees[h].entries)
      requires h !in t0 && liveTrees == t0 + {h} && liveFiles == f0
      modifies this
      ensures Valid() && h in liveTrees && Explained(trees, h, t0, f0, liveTrees, liveFiles)
      ensures ok ==> AllDone(s, trees, liveTrees - t0, liveTrees, liveFiles)
      ensures !ok ==> SomeUnsound(s, trees, t0, h)
      decreases trees.Keys - t0 - {h}, 2
    {
      ReachableSelf(trees, h);
      var node := trees[h];
      var i := 0;
      while i < |node.entries|
        invariant 0 <= i <= |node.entries| && Valid()
        invariant h in liveTrees && Explained(trees, h, t0, f0, liveTrees, liveFiles)
        invariant AllDone(s, trees, liveTrees - t0 - {h}, liveTrees, liveFiles)
        invariant AllHandled(node.entries[..i], liveTrees, liveFiles)
      {
        ghost var t1, f1 := liveTrees, liveFiles;
        ok := CollectEntry(s, trees, h, node.entries[i], t0, f0);
        if !ok {
          return;
        }
        HandledMore(node.entries, i, t1, f1, liveTrees, liveFiles);
        i := i + 1;
      }
      assert node.entries[..i] == node.entries;
      NodeDone(s, trees, h, liveTrees, liveFiles);
      forall x | x in liveTrees - t0 ensures Done(s, trees, liveTrees, liveFiles, x) {
        assert x == h || x in liveTrees - t0 - {h};
      }
      return true;
    }

    /** The loop body: one entry. */
    method CollectEntry(s: Scheme, trees: Trees, h: Hash, e: TreeEntry, ghost t0: set<Hash>, ghost f0: set<Key>)
      returns (ok: bool)
      requires Valid() && Verified(s, trees, h) && h !in t0 && h in liveTrees && e in trees[h].entries
      requires Explained(trees, h, t0, f0, liveTrees, liveFiles)
      requires AllDone(s, trees, liveTrees - t0 - {h}, liveTrees, liveFiles)
      modifies this
      ensures Valid() && old(liveTrees) <= liveTrees && old(liveFiles) <= liveFiles
      ensures Explained(trees, h, t0, f0, liveTrees, liveFiles)
      ensures ok ==> AllDone(s, trees, liveTrees - t0 - {h}, liveTrees, liveFiles) && Handled(e, liveTrees, liveFiles)
      ensures !ok ==> SomeUnsound(s, trees, t0, h)
      decreases trees.Keys - t0 - {h}, 1
    {
      if !GoodEntry(e) {
        FreshSelf(trees, t0, h);
        assert !Sound(s, trees, h);
        return false;
      }
      ghost var t1, f1 := liveTrees, liveFiles;
      if e.node.File? {
        liveFiles := liveFiles + {LeafKey(e.node.leaf)};
        NoteKey(s, trees, h, e, t0, f0, t1, f1);
        AllDoneMore(s, trees, t1 - t0 - {h}, t1, f1, liveTrees, liveFiles);
        return true;
      }
      assert trees.Keys - liveTrees <= trees.Keys - t0 - {h};
      ok := WalkCollect(s, trees, e.node.hash);
      AfterChild(s, trees, h, e.node.hash, t0, f0, t1, f1, liveTrees, liveFiles);
      if !ok {
        UnsoundBelow(s, trees, h, e.node.hash, t0, t1);
      }
    }

    /** DeleteVersion and GC mark from every version of the metadata, in map order. */
    method CollectLive(s: Scheme, md: BackupMetadata) returns (ok: bool)
      requires Valid() && liveTrees == {} && liveFiles == {}
      modifies this
      ensures ok <==> forall v | v in md.versions :: AllSound(s, md.trees, md.versions[v].root)
      ensures ok ==> liveTrees == LiveTrees(md) && liveFiles == LiveKeys(md)
      ensures Valid()
    {
      var todo := md.versions.Keys;
      while todo != {}
        invariant Valid() && todo <= md.versions.Keys
        invariant AllDone(s, md.trees, liveTrees, liveTrees, liveFiles)
        invariant forall x | x in liveTrees :: IsLive(md, x)
        invariant forall k | k in liveFiles :: KeyStandsIn(md.trees, liveTrees, k)
        invariant forall v | v in md.versions && v !in todo :: md.versions[v].root in liveTrees
        decreases todo
      {
        var v :| v in todo;
        var root := md.versions[v].root;
        ghost var t0, f0 := liveTrees, liveFiles;
        var marked := WalkCollect(s, md.trees, root);
        if !marked {
          UnsoundIsReachable(s, md.trees, t0, root);
          return false;
        }
        AllDoneMore(s, md.trees, t0, t0, f0, liveTrees, liveFiles);
        forall x | x in liveTrees ensures Done(s, md.trees, liveTrees, liveFiles, x) {
          assert AllDone(s, md.trees, t0, liveTrees, liveFiles)
              && AllDone(s, md.trees, liveTrees - t0, liveTrees, liveFiles);
          assert x in t0 || x in liveTrees - t0;
        }
        forall k | k in liveFiles ensures KeyStandsIn(md.trees, liveTrees, k) {
          if k in f0 {
            WidenKey(md.trees, t0, liveTrees, k);
          } else {
            assert k in liveFiles - f0;
            WidenKey(md.trees, liveTrees - t0, liveTrees, k);
          }
        }
        todo := todo - {v};
      }
      MarksAreLive(s, md, liveTrees, liveFiles);
      return true;
    }
  }

  lemma AllDoneMore(s: Scheme, trees: Trees, which: set<Hash>, m1: set<Hash>, k1: set<Key>, m2: set<Hash>, k2: set<Key>)
    requires AllDone(s, trees, which, m1, k1) && m1 <= m2 && k1 <= k2
    ensures AllDone(s, trees, which, m2, k2)
  {
    forall x | x in which ensures Done(s, trees, m2, k2, x) {
      assert Done(s, trees, m1, k1, x);
    }
  }

  lemma NoteKey(s: Scheme, trees: Trees, h: Hash, e: TreeEntry, t0: set<Hash>, f0: set<Key>, t1: set<Hash>,
                f1: set<Key>)
    requires Explained(trees, h, t0, f0, t1, f1) && h in t1 - t0
    requires h in trees && e in trees[h].entries && e.node.File?
    ensures Explained(trees, h, t0, f0, t1, f1 + {LeafKey(e.node.leaf)})
  {
    assert LeafKey(e.node.leaf) in KeysIn(trees, h);
    forall k | k in f1 + {LeafKey(e.node.leaf)} - f0 ensures KeyStandsIn(trees, t1 - t0, k) {
    }
  }

  lemma NodeDone(s: Scheme, trees: Trees, h: Hash, marked: set<Hash>, keys: set<Key>)
    requires Verified(s, trees, h) && StrictlySorted(trees[h].entries)
    requires AllHandled(trees[h].entries, marked, keys)
    ensures Done(s, trees, marked, keys, h)
  {
  }

  /** A closed set of sound, reachable marks that holds every root is exactly the live set. */
  lemma MarksAreLive(s: Scheme, md: BackupMetadata, marked: set<Hash>, keys: set<Key>)
    requires AllDone(s, md.trees, marked, marked, keys)
    requires forall x | x in marked :: IsLive(md, x)
    requires forall k | k in keys :: KeyStandsIn(md.trees, marked, k)
    requires forall v | v in md.versions :: md.versions[v].root in marked
    ensures marked == LiveTrees(md) && keys == LiveKeys(md)
    ensures forall v | v in md.versions :: AllSound(s, md.trees, md.versions[v].root)
  {
    forall v | v in md.versions ensures AllSound(s, md.trees, md.versions[v].root) {
      forall x | Reachable(md.trees, md.versions[v].root, x) ensures Sound(s, md.trees, x) {
        MarksCatch(s, md, marked, keys, v, x);
      }
    }
    TreesAreLive(s, md, marked, keys);
    KeysAreLive(s, md, marked, keys);
  }

  lemma TreesAreLive(s: Scheme, md: BackupMetadata, marked: set<Hash>, keys: set<Key>)
    requires AllDone(s, md.trees, marked, marked, keys)
    requires forall x | x in marked :: IsLive(md, x)
    requires forall v | v in md.versions :: md.versions[v].root in marked
    ensures marked == LiveTrees(md)
  {
    forall x | x in marked ensures x in LiveTrees(md) {
      assert Done(s, md.trees, marked, keys, x);
    }
    forall x | x in LiveTrees(md) ensures x in marked {
      var v :| v in md.versions && Reachable(md.trees, md.versions[v].root, x);
      MarksCatch(s, md, marked, keys, v, x);
    }
  }

  lemma MarksCatch(s: Scheme, md: BackupMetadata, marked: set<Hash>, keys: set<Key>, v: VersionId, x: Hash)
    requires AllDone(s, md.trees, marked, marked, keys)
    requires v in md.versions && md.versions[v].root in marked && Reachable(md.trees, md.versions[v].root, x)
    ensures x in marked && Sound(s, md.trees, x)
  {
    var chain: seq<Hash> :| IsChain(md.trees, chain) && chain[0] == md.versions[v].root && chain[|chain| - 1] == x;
    forall h, c | h in marked && IsChild(md.trees, h, c) ensures c in marked {
      assert Done(s, md.trees, marked, keys, h);
    }
    ClosedUnderChildren(md.trees, marked, chain);
    assert Done(s, md.trees, marked, keys, x);
  }

  lemma KeysAreLive(s: Scheme, md: BackupMetadata, marked: set<Hash>, keys: set<Key>)
    requires AllDone(s, md.trees, marked, marked, keys) && marked == LiveTrees(md)
    requires forall k | k in keys :: KeyStandsIn(md.trees, marked, k)
    ensures keys == LiveKeys(md)
  {
    forall k | k in LiveKeys(md) ensures k in keys {
      var x, e :| x in LiveTrees(md) && x in md.trees && e in md.trees[x].entries && e.node.File?
          && LeafKey(e.node.leaf) == k;
      assert Done(s, md.trees, marked, keys, x) && k in KeysIn(md.trees, x);
    }
    forall k | k in keys ensures k in LiveKeys(md) {
      assert KeyStandsIn(md.trees, marked, k);
      var x :| x in marked && k in KeysIn(md.trees, x);
    }
  }

  predicate Handled(e: TreeEntry, marked: set<Hash>, keys: set<Key>)
  {
    GoodEntry(e) && (if e.node.File? then LeafKey(e.node.leaf) in keys else e.node.hash in marked)
  }

  predicate AllHandled(es: seq<TreeEntry>, marked: set<Hash>, keys: set<Key>)
  {
    forall j | 0 <= j < |es| :: Handled(es[j], marked, keys)
  }

  lemma HandledMore(es: seq<TreeEntry>, i: nat, m1: set<Hash>, k1: set<Key>, m2: set<Hash>, k2: set<Key>)
    requires i < |es| && AllHandled(es[..i], m1, k1) && m1 <= m2 && k1 <= k2 && Handled(es[i], m2, k2)
    ensures AllHandled(es[..i + 1], m2, k2)
  {
    forall j | 0 <= j < i ensures Handled(es[j], m2, k2) {
      assert Handled(es[..i][j], m1, k1);
    }
  }

  method CheckOrder(es: seq<TreeEntry>) returns (sorted: bool)
    ensures sorted <==> NeighboursSorted(es)
  {
    var prev := "";
    var i := 0;
    while i < |es|
      invariant 0 <= i <= |es|
      invariant i > 0 ==> prev == es[i - 1].name
      invariant forall j | 0 < j < i :: Less(es[j - 1].name, es[j].name)
    {
      if i > 0 && !Less(prev, es[i].name) {
        return false;
      }
      prev := es[i].name;
      i := i + 1;
    }
    return true;
  }

  // ---- What the mark phase should find ----

  ghost predicate IsLive(md: BackupMetadata, h: Hash)
  {
    exists v :: v in md.versions && Reachable(md.trees, md.versions[v].root, h)
  }

  ghost function LiveTrees(md: BackupMetadata): set<Hash>
  {
    set h | h in md.trees && IsLive(md, h)
  }

  ghost function LiveKeys(md: BackupMetadata): set<Key>
  {
    set h, e | h in LiveTrees(md) && h in md.trees && e in md.trees[h].entries && e.node.File? :: LeafKey(e.node.leaf)
  }

  ghost predicate EveryVersionResolves(s: Scheme, md: BackupMetadata)
    requires WellFounded(s)
  {
    forall v | v in md.versions :: Walk(s, md.trees, md.versions[v].root, "", false).Some?
  }

  /** Marking succeeds exactly when every version resolves strictly. */
  lemma MarkSucceedsIffResolves(s: Scheme, md: BackupMetadata)
    requires WellFounded(s)
    ensures EveryVersionResolves(s, md) <==> forall v | v in md.versions :: AllSound(s, md.trees, md.versions[v].root)
  {
    forall v | v in md.versions
      ensures Walk(s, md.trees, md.versions[v].root, "", false).Some? <==> AllSound(s, md.trees, md.versions[v].root)
    {
      StrictSucceedsIff(s, md.trees, md.versions[v].root, "");
    }
  }

  ghost predicate ResolvedKey(s: Scheme, md: BackupMetadata, k: Key)
    requires WellFounded(s)
  {
    exists v, q :: v in md.versions && Walk(s, md.trees, md.versions[v].root, "", false).Some? &&
                   q in Walk(s, md.trees, md.versions[v].root, "", false).value.files &&
                   Walk(s, md.trees, md.versions[v].root, "", false).value.files[q] == k
  }

  /** The marked keys are the keys that some version resolves to: no more and no fewer. */
  lemma LiveKeysAreResolvedKeys(s: Scheme, md: BackupMetadata, k: Key)
    requires WellFounded(s) && EveryVersionResolves(s, md)
    ensures k in LiveKeys(md) <==> ResolvedKey(s, md, k)
  {
    if k in LiveKeys(md) {
      LiveKeyResolves(s, md, k);
    }
    if ResolvedKey(s, md, k) {
      ResolvedKeyLives(s, md, k);
    }
  }

  lemma LiveKeyResolves(s: Scheme, md: BackupMetadata, k: Key)
    requires WellFounded(s) && EveryVersionResolves(s, md) && k in LiveKeys(md)
    ensures ResolvedKey(s, md, k)
  {
    var h, e :| h in LiveTrees(md) && h in md.trees && e in md.trees[h].entries && e.node.File?
        && LeafKey(e.node.leaf) == k;
    var v :| v in md.versions && Reachable(md.trees, md.versions[v].root, h);
    StrictSucceedsIff(s, md.trees, md.versions[v].root, "");
    var p := ReachableLeafHasPath(s, md.trees, md.versions[v].root, h, e);
    WalkFindsAll(s, md.trees, md.versions[v].root, [], p, e.node.leaf);
    assert [] + p == p;
    assert Join(p) in Walk(s, md.trees, md.versions[v].root, "", false).value.files;
  }

  lemma ResolvedKeyLives(s: Scheme, md: BackupMetadata, k: Key)
    requires WellFounded(s) && ResolvedKey(s, md, k)
    ensures k in LiveKeys(md)
  {
    var v, q :| v in md.versions && Walk(s, md.trees, md.versions[v].root, "", false).Some? &&
                q in Walk(s, md.trees, md.versions[v].root, "", false).value.files &&
                Walk(s, md.trees, md.versions[v].root, "", false).value.files[q] == k;
    var p, leaf := WalkFindsOnly(s, md.trees, md.versions[v].root, [], false, q);
    var x, e := FileIsInReachableNode(s, md.trees, md.versions[v].root, p, leaf);
    assert IsLive(md, x) && x in LiveTrees(md);
  }
}
