/** The messages of the .tsync object and what a sound tree node is
    (gen/go messages; the checks of tsync/restore.go and tsync/client.go). */
module Metadata {
  import opened Base
  import opened Names
  import opened Keys

  type Hash = string

  datatype FileLeaf = FileLeaf(crc32: uint32, size: int64)

  /** The oneof of a TreeEntry: a file (whose message may be absent), a subtree, or nothing set. */
  datatype Ref = File(leaf: FileLeaf) | NilFile | Subtree(hash: Hash) | Unset

  datatype TreeEntry = TreeEntry(name: string, node: Ref)

  datatype TreeNode = TreeNode(entries: seq<TreeEntry>)

  type Trees = map<Hash, TreeNode>

  /** What a part needs to be opened again: ephemeral key, encrypted password and key id,
      taken together. */
  type Seal = string

  datatype FileRecord = FileRecord(crc32: uint32, compressedSize: int64, size: int64, seal: Seal)

  /** The content key a record gives for itself. */
  function RecordKey(rec: FileRecord): Key { FileKeyFor(rec.crc32, rec.size) }

  function LeafKey(leaf: FileLeaf): Key { FileKeyFor(leaf.crc32, leaf.size) }

  type VersionId = nat

  datatype Version = Version(root: Hash, comment: string)

  datatype BackupMetadata = BackupMetadata(
    versions: map<VersionId, Version>, trees: Trees, files: map<Key, FileRecord>)

  /** SHA-256 of the deterministic encoding of a node, with a rank that witnesses that no node
      refers to itself through its hashes. */
  datatype Scheme = Scheme(hash: TreeNode -> Hash, rank: Hash -> nat)

  ghost predicate CollisionFree(s: Scheme)
  {
    && (forall m: TreeNode, n: TreeNode :: s.hash(m) == s.hash(n) ==> m == n)
    && (forall n: TreeNode :: s.hash(n) != "")
  }

  /** Hashes are well founded: a node never lies below itself. */
  ghost predicate WellFounded(s: Scheme)
  {
    forall n: TreeNode, i: nat ::
      i < |n.entries| && n.entries[i].node.Subtree? ==> s.rank(n.entries[i].node.hash) < s.rank(s.hash(n))
  }

  predicate StrictlySorted(es: seq<TreeEntry>)
  {
    forall i, j | 0 <= i < j < |es| :: Less(es[i].name, es[j].name)
  }

  /** The loop over neighbours that both walks run before they descend. */
  predicate NeighboursSorted(es: seq<TreeEntry>)
  {
    forall i | 0 < i < |es| :: Less(es[i - 1].name, es[i].name)
  }

  lemma {:induction false} NeighboursSuffice(es: seq<TreeEntry>)
    requires NeighboursSorted(es)
    ensures StrictlySorted(es)
  {
    forall i, j | 0 <= i < j < |es| ensures Less(es[i].name, es[j].name) {
      NeighboursChain(es, i, j);
    }
  }

  lemma {:induction false} NeighboursChain(es: seq<TreeEntry>, i: nat, j: nat)
    requires NeighboursSorted(es) && i < j < |es|
    ensures Less(es[i].name, es[j].name)
  {
    if i < j - 1 {
      NeighboursChain(es, i, j - 1);
      LessTransitive(es[i].name, es[j - 1].name, es[j].name);
    }
  }

  lemma SortedDistinct(es: seq<TreeEntry>, i: nat, j: nat)
    requires StrictlySorted(es) && i < |es| && j < |es| && es[i].name == es[j].name
    ensures i == j
  {
    LessTotal(es[i].name, es[j].name);
  }

  /** What an entry must satisfy for a strict walk to accept it. */
  predicate GoodEntry(e: TreeEntry)
  {
    ValidName(e.name) && (e.node.File? || (e.node.Subtree? && e.node.hash != ""))
  }

  predicate Verified(s: Scheme, trees: Trees, h: Hash)
  {
    h in trees && s.hash(trees[h]) == h
  }

  /** Present under its own hash, sorted, every entry good. */
  predicate Sound(s: Scheme, trees: Trees, h: Hash)
  {
    && Verified(s, trees, h)
    && StrictlySorted(trees[h].entries)
    && forall e | e in trees[h].entries :: GoodEntry(e)
  }

  predicate IsChild(trees: Trees, h: Hash, c: Hash)
  {
    h in trees && exists e | e in trees[h].entries :: e.node == Subtree(c)
  }

  predicate IsChain(trees: Trees, chain: seq<Hash>)
  {
    chain != [] && forall i | 0 <= i < |chain| - 1 :: IsChild(trees, chain[i], chain[i + 1])
  }

  ghost predicate Reachable(trees: Trees, a: Hash, b: Hash)
  {
    exists chain: seq<Hash> :: IsChain(trees, chain) && chain[0] == a && chain[|chain| - 1] == b
  }

  /** Everything below h (and h) is sound: the strict walk and the mark phase both ask for this. */
  ghost predicate AllSound(s: Scheme, trees: Trees, h: Hash)
  {
    forall x :: Reachable(trees, h, x) ==> Sound(s, trees, x)
  }

  lemma ReachableSelf(trees: Trees, h: Hash)
    ensures Reachable(trees, h, h)
  {
    var c := [h];
    assert IsChain(trees, c);
  }

  lemma ReachableStep(trees: Trees, a: Hash, b: Hash, c: Hash)
    requires IsChild(trees, a, b) && Reachable(trees, b, c)
    ensures Reachable(trees, a, c)
  {
    var chain: seq<Hash> :| IsChain(trees, chain) && chain[0] == b && chain[|chain| - 1] == c;
    var longer := [a] + chain;
    assert forall i | 0 < i < |longer| :: longer[i] == chain[i - 1];
    assert IsChain(trees, longer) && longer[|longer| - 1] == c;
  }

  /** A chain either stops at once or goes through a child. */
  lemma ReachableSplit(trees: Trees, a: Hash, c: Hash) returns (b: Hash)
    requires Reachable(trees, a, c) && a != c
    ensures IsChild(trees, a, b) && Reachable(trees, b, c)
  {
    var chain: seq<Hash> :| IsChain(trees, chain) && chain[0] == a && chain[|chain| - 1] == c;
    b := chain[1];
    var rest := chain[1..];
    assert forall i | 0 <= i < |rest| :: rest[i] == chain[i + 1];
    assert IsChain(trees, rest) && rest[0] == b && rest[|rest| - 1] == c;
  }

  lemma AllSoundChild(s: Scheme, trees: Trees, h: Hash, c: Hash)
    requires AllSound(s, trees, h) && IsChild(trees, h, c)
    ensures AllSound(s, trees, c)
  {
    forall x | Reachable(trees, c, x) ensures Sound(s, trees, x) {
      ReachableStep(trees, h, c, x);
    }
  }

  /** Soundness below h, one level at a time. */
  lemma AllSoundUnfold(s: Scheme, trees: Trees, h: Hash)
    ensures AllSound(s, trees, h) <==>
            Sound(s, trees, h) && forall e | e in trees[h].entries && e.node.Subtree? :: AllSound(s, trees, e.node.hash)
  {
    if AllSound(s, trees, h) {
      ReachableSelf(trees, h);
      forall e | e in trees[h].entries && e.node.Subtree? ensures AllSound(s, trees, e.node.hash) {
        AllSoundChild(s, trees, h, e.node.hash);
      }
    } else {
      var x :| Reachable(trees, h, x) && !Sound(s, trees, x);
      if x != h && Sound(s, trees, h) {
        var c := ReachableSplit(trees, h, x);
        assert !AllSound(s, trees, c);
      }
    }
  }

  /** A chain from a set closed under children never leaves it. */
  lemma {:induction false} ClosedUnderChildren(trees: Trees, closed: set<Hash>, chain: seq<Hash>)
    requires IsChain(trees, chain) && chain[0] in closed
    requires forall h, c | h in closed && IsChild(trees, h, c) :: c in closed
    ensures chain[|chain| - 1] in closed
  {
    if |chain| > 1 {
      assert IsChild(trees, chain[0], chain[1]);
      var rest := chain[1..];
      assert forall i | 0 <= i < |rest| :: rest[i] == chain[i + 1];
      ClosedUnderChildren(trees, closed, rest);
    }
  }

  /** Two tree maps that agree on a sound tree agree on what is reachable and sound in it. */
  ghost predicate AgreeBelow(trees: Trees, other: Trees, h: Hash)
  {
    forall x :: Reachable(trees, h, x) ==> x in trees && x in other && other[x] == trees[x]
  }

  lemma AgreeReach(trees: Trees, other: Trees, h: Hash, x: Hash)
    requires AgreeBelow(trees, other, h)
    ensures Reachable(other, h, x) <==> Reachable(trees, h, x)
  {
    if Reachable(trees, h, x) {
      var chain: seq<Hash> :| IsChain(trees, chain) && chain[0] == h && chain[|chain| - 1] == x;
      AgreeChain(trees, other, h, chain);
    }
    if Reachable(other, h, x) {
      var chain: seq<Hash> :| IsChain(other, chain) && chain[0] == h && chain[|chain| - 1] == x;
      AgreeChainBack(trees, other, h, chain);
    }
  }

  lemma {:induction false} AgreeChain(trees: Trees, other: Trees, h: Hash, chain: seq<Hash>)
    requires AgreeBelow(trees, other, h) && IsChain(trees, chain) && chain[0] == h
    ensures IsChain(other, chain)
  {
    forall i | 0 <= i < |chain| - 1 ensures IsChild(other, chain[i], chain[i + 1]) {
      assert Reachable(trees, h, chain[i]) by {
        var front := chain[..i + 1];
        assert IsChain(trees, front) && front[|front| - 1] == chain[i];
      }
    }
  }

  lemma {:induction false} AgreeChainBack(trees: Trees, other: Trees, h: Hash, chain: seq<Hash>)
    requires AgreeBelow(trees, other, h) && IsChain(other, chain) && chain[0] == h
    ensures IsChain(trees, chain) && Reachable(trees, h, chain[|chain| - 1])
  {
    if |chain| == 1 {
      ReachableSelf(trees, h);
    } else {
      var front := chain[..|chain| - 1];
      assert IsChain(other, front) by {
        assert forall i | 0 <= i < |front| :: front[i] == chain[i];
      }
      AgreeChainBack(trees, other, h, front);
      var last := |chain| - 2;
      assert IsChild(other, chain[last], chain[last + 1]);
      assert IsChild(trees, chain[last], chain[last + 1]);
      forall i | 0 <= i < |chain| - 1 ensures IsChild(trees, chain[i], chain[i + 1]) {
        if i < last {
          assert front[i] == chain[i] && front[i + 1] == chain[i + 1];
        }
      }
    }
  }

  lemma AgreeSound(s: Scheme, trees: Trees, other: Trees, h: Hash)
    requires AgreeBelow(trees, other, h) && AllSound(s, trees, h)
    ensures AllSound(s, other, h)
  {
    forall x | Reachable(other, h, x) ensures Sound(s, other, x) {
      AgreeReach(trees, other, h, x);
    }
  }

  lemma AgreeChild(trees: Trees, other: Trees, h: Hash, c: Hash)
    requires AgreeBelow(trees, other, h) && IsChild(trees, h, c)
    ensures AgreeBelow(trees, other, c)
  {
    forall x | Reachable(trees, c, x) ensures x in trees && x in other && other[x] == trees[x] {
      ReachableStep(trees, h, c, x);
    }
  }

  /** Every key of the map is the hash of its node. */
  predicate Consistent(s: Scheme, trees: Trees)
  {
    forall h | h in trees :: s.hash(trees[h]) == h
  }

  /** Adding or overwriting nodes under their own hashes leaves a sound tree alone. */
  lemma MergeAgrees(s: Scheme, trees: Trees, more: Trees, h: Hash)
    requires CollisionFree(s) && AllSound(s, trees, h) && Consistent(s, more)
    ensures AgreeBelow(trees, trees + more, h)
  {
    forall x | Reachable(trees, h, x)
      ensures x in trees && x in trees + more && (trees + more)[x] == trees[x]
    {
      assert Sound(s, trees, x);
    }
  }
}
