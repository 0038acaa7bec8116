/** When a store can give every version back, and what its three operations do to its metadata
    (tsync/backup.go RunBackup; tsync/client.go DeleteVersion, GC). */
module Store {
  import opened Base
  import opened Keys
  import opened Metadata
  import opened Resolve
  import opened Mark
  import opened Objects

  datatype StoreState = StoreState(meta: Option<BackupMetadata>, objects: Objects)

  ghost predicate RecordsIntact(files: map<Key, FileRecord>, objects: Objects)
  {
    forall k | k in files :: RecordKey(files[k]) == k && PartIntact(objects, k, files[k])
  }

  /** Every record is filed under its own key. */
  ghost predicate OwnKeys(files: map<Key, FileRecord>)
  {
    forall k | k in files :: RecordKey(files[k]) == k
  }

  /** Every version resolves strictly, every leaf key has a record, and every record names its own
      key and has the part that was written for it. */
  ghost predicate Restorable(s: Scheme, md: BackupMetadata, objects: Objects)
  {
    && (forall v | v in md.versions :: AllSound(s, md.trees, md.versions[v].root))
    && LiveKeys(md) <= md.files.Keys
    && RecordsIntact(md.files, objects)
  }

  ghost predicate StoreInv(s: Scheme, st: StoreState)
  {
    st.meta.Some? ==> Restorable(s, st.meta.value, st.objects)
  }

  /** What StoreInv is worth to a caller: every path of every version leads to its own part. */
  lemma RestorableRestores(s: Scheme, md: BackupMetadata, objects: Objects, v: VersionId)
    requires WellFounded(s) && Restorable(s, md, objects) && v in md.versions
    ensures ResolveVersion(s, md, v, false).Resolved?
    ensures forall q | q in ResolveVersion(s, md, v, false).files ::
              var k := ResolveVersion(s, md, v, false).files[q];
              k in md.files && RecordKey(md.files[k]) == k && PartIntact(objects, k, md.files[k])
  {
    var root := md.versions[v].root;
    StrictSucceedsIff(s, md.trees, root, "");
    var files := Walk(s, md.trees, root, "", false).value.files;
    forall q | q in files ensures files[q] in md.files {
      assert ResolvedKey(s, md, files[q]);
      ResolvedKeyLives(s, md, files[q]);
    }
  }

  // ---- RunBackup: the new metadata ----

  function NewMetadata(loaded: Option<BackupMetadata>, single: bool, id: VersionId, v: Version,
                       newTrees: Trees, newFiles: map<Key, FileRecord>): BackupMetadata
  {
    var base := Kept(loaded, single);
    BackupMetadata(base.versions[id := v], base.trees + newTrees, base.files + newFiles)
  }

  /** What of the loaded metadata a backup keeps. */
  function Kept(loaded: Option<BackupMetadata>, single: bool): BackupMetadata
  {
    if loaded.Some? && !single then loaded.value else BackupMetadata(map[], map[], map[])
  }

  /** The versions are the kept ones and the new one under its id. */
  ghost predicate AddsVersion(md: BackupMetadata, kept: map<VersionId, Version>, id: VersionId, v: Version)
  {
    && id in md.versions && md.versions[id] == v
    && forall w | w != id :: (w in md.versions <==> w in kept) && (w in md.versions ==> md.versions[w] == kept[w])
  }

  lemma NewMetadataAdds(loaded: Option<BackupMetadata>, single: bool, id: VersionId, v: Version,
                        newTrees: Trees, newFiles: map<Key, FileRecord>)
    ensures var md := NewMetadata(loaded, single, id, v, newTrees, newFiles);
            && AddsVersion(md, if single || loaded.None? then map[] else loaded.value.versions, id, v)
            && md.files == (if single || loaded.None? then map[] else loaded.value.files) + newFiles
  {
  }

  ghost predicate LeavesCovered(trees: Trees, root: Hash, files: map<Key, FileRecord>)
  {
    forall x, e | Reachable(trees, root, x) && x in trees && e in trees[x].entries && e.node.File? ::
        LeafKey(e.node.leaf) in files
  }

  lemma LiveKeysCovered(s: Scheme, md: BackupMetadata)
    requires forall v | v in md.versions :: LeavesCovered(md.trees, md.versions[v].root, md.files)
    ensures LiveKeys(md) <= md.files.Keys
  {
    forall k | k in LiveKeys(md) ensures k in md.files {
      var h, e :| h in LiveTrees(md) && h in md.trees && e in md.trees[h].entries && e.node.File?
          && LeafKey(e.node.leaf) == k;
      var v :| v in md.versions && Reachable(md.trees, md.versions[v].root, h);
      assert LeavesCovered(md.trees, md.versions[v].root, md.files);
    }
  }

  lemma CoveredByLive(md: BackupMetadata, v: VersionId)
    requires v in md.versions && LiveKeys(md) <= md.files.Keys
    ensures LeavesCovered(md.trees, md.versions[v].root, md.files)
  {
    forall x, e | Reachable(md.trees, md.versions[v].root, x) && x in md.trees && e in md.trees[x].entries
        && e.node.File?
      ensures LeafKey(e.node.leaf) in md.files
    {
      assert IsLive(md, x) && x in LiveTrees(md);
      assert LeafKey(e.node.leaf) in LiveKeys(md);
    }
  }

  lemma CoveredAgrees(s: Scheme, trees: Trees, other: Trees, root: Hash, files: map<Key, FileRecord>,
                      more: map<Key, FileRecord>)
    requires AgreeBelow(trees, other, root) && LeavesCovered(trees, root, files) && files.Keys <= more.Keys
    ensures LeavesCovered(other, root, more)
  {
    forall x, e | Reachable(other, root, x) && x in other && e in other[x].entries && e.node.File?
      ensures LeafKey(e.node.leaf) in more
    {
      AgreeReach(trees, other, root, x);
    }
  }

  /** The commit: the new version and, unless single-version mode drops them, all old ones. */
  lemma CommitKeeps(s: Scheme, objects: Objects, loaded: Option<BackupMetadata>, single: bool, id: VersionId,
                    v: Version, newTrees: Trees, newFiles: map<Key, FileRecord>)
    requires CollisionFree(s)
    requires loaded.Some? ==> Restorable(s, loaded.value, objects)
    requires Consistent(s, newTrees) && AllSound(s, newTrees, v.root) && LeavesCovered(newTrees, v.root, newFiles)
    requires RecordsIntact(newFiles, objects)
    ensures Restorable(s, NewMetadata(loaded, single, id, v, newTrees, newFiles), objects)
  {
    var md := NewMetadata(loaded, single, id, v, newTrees, newFiles);
    forall w | w in md.versions
      ensures AllSound(s, md.trees, md.versions[w].root) && LeavesCovered(md.trees, md.versions[w].root, md.files)
    {
      if w == id {
        NewVersionSound(s, md.trees, newTrees, v.root, newFiles, md.files);
      } else {
        var base := loaded.value;
        CoveredByLive(base, w);
        MergeAgrees(s, base.trees, newTrees, base.versions[w].root);
        AgreeSound(s, base.trees, md.trees, base.versions[w].root);
        CoveredAgrees(s, base.trees, md.trees, base.versions[w].root, base.files, md.files);
      }
    }
    LiveKeysCovered(s, md);
  }

  lemma NewVersionSound(s: Scheme, trees: Trees, newTrees: Trees, root: Hash, newFiles: map<Key, FileRecord>,
                        files: map<Key, FileRecord>)
    requires AllSound(s, newTrees, root) && LeavesCovered(newTrees, root, newFiles) && newFiles.Keys <= files.Keys
    requires forall h | h in newTrees :: h in trees && trees[h] == newTrees[h]
    ensures AgreeBelow(newTrees, trees, root) && AllSound(s, trees, root) && LeavesCovered(trees, root, files)
  {
    forall x | Reachable(newTrees, root, x) ensures x in newTrees {
      assert Sound(s, newTrees, x);
    }
    AgreeSound(s, newTrees, trees, root);
    CoveredAgrees(s, newTrees, trees, root, newFiles, files);
  }

  /** A backup that keeps old versions changes neither their resolution nor their records. */
  lemma BackupPreserves(s: Scheme, objects: Objects, loaded: BackupMetadata, id: VersionId, v: Version,
                        newTrees: Trees, newFiles: map<Key, FileRecord>, w: VersionId)
    requires CollisionFree(s) && WellFounded(s) && Restorable(s, loaded, objects) && Consistent(s, newTrees)
    requires forall k | k in newFiles && k in loaded.files :: newFiles[k] == loaded.files[k]
    requires id !in loaded.versions && w in loaded.versions
    ensures var md := NewMetadata(Some(loaded), false, id, v, newTrees, newFiles);
            && ResolveVersion(s, md, w, false) == ResolveVersion(s, loaded, w, false)
            && (forall k | k in loaded.files :: k in md.files && md.files[k] == loaded.files[k])
  {
    MergeAgrees(s, loaded.trees, newTrees, loaded.versions[w].root);
    AgreeWalk(s, loaded.trees, loaded.trees + newTrees, loaded.versions[w].root, "");
  }

  /** And the new version is there under its id, and resolves as its own tree does. */
  lemma BackupResolvesNew(s: Scheme, loaded: Option<BackupMetadata>, single: bool, id: VersionId, v: Version,
                          newTrees: Trees, newFiles: map<Key, FileRecord>)
    requires WellFounded(s) && AllSound(s, newTrees, v.root)
    ensures var md := NewMetadata(loaded, single, id, v, newTrees, newFiles);
            match Walk(s, newTrees, v.root, "", false)
            case Some(w) => ResolveVersion(s, md, id, false) == Resolved(w.files, w.dirs)
            case None => false
  {
    var md := NewMetadata(loaded, single, id, v, newTrees, newFiles);
    forall x | Reachable(newTrees, v.root, x) ensures x in newTrees {
      assert Sound(s, newTrees, x);
    }
    assert AgreeBelow(newTrees, md.trees, v.root);
    AgreeWalk(s, newTrees, md.trees, v.root, "");
    StrictSucceedsIff(s, newTrees, v.root, "");
  }

  // ---- DeleteVersion and GC: dropping what no version needs ----

  function Without(md: BackupMetadata, id: VersionId): BackupMetadata
  {
    md.(versions := map v | v in md.versions && v != id :: md.versions[v])
  }

  ghost function Pruned(md: BackupMetadata): BackupMetadata
  {
    md.(trees := map h | h in md.trees && h in LiveTrees(md) :: md.trees[h],
        files := map k | k in md.files && k in LiveKeys(md) :: md.files[k])
  }

  /** The versions are the old ones but for id. */
  ghost predicate DropsVersion(before: map<VersionId, Version>, after: map<VersionId, Version>, id: VersionId)
  {
    && id !in after
    && forall w | w != id :: (w in after <==> w in before) && (w in after ==> after[w] == before[w])
  }

  /** Nothing but records and trees that no remaining version needs goes with a version. */
  lemma DeletedExact(md: BackupMetadata, id: VersionId)
    ensures var p := Pruned(Without(md, id));
            && DropsVersion(md.versions, p.versions, id)
            && (forall h :: h in p.trees <==> h in md.trees && IsLive(p.(trees := md.trees), h))
            && (forall h | h in p.trees :: p.trees[h] == md.trees[h])
            && (forall k | k in p.files :: k in md.files && p.files[k] == md.files[k])
  {
    var w := Without(md, id);
    assert Pruned(w).(trees := md.trees).versions == w.versions;
    forall h ensures IsLive(w, h) <==> IsLive(Pruned(w).(trees := md.trees), h) {
    }
  }

  lemma WithoutKeeps(s: Scheme, md: BackupMetadata, objects: Objects, id: VersionId)
    requires Restorable(s, md, objects)
    ensures Restorable(s, Without(md, id), objects)
  {
    var w := Without(md, id);
    forall v | v in w.versions ensures LeavesCovered(w.trees, w.versions[v].root, w.files) {
      CoveredByLive(md, v);
    }
    LiveKeysCovered(s, w);
  }

  lemma PruneAgrees(s: Scheme, md: BackupMetadata, v: VersionId)
    requires v in md.versions && AllSound(s, md.trees, md.versions[v].root)
    ensures AgreeBelow(md.trees, Pruned(md).trees, md.versions[v].root)
  {
    forall x | Reachable(md.trees, md.versions[v].root, x)
      ensures x in md.trees && x in Pruned(md).trees && Pruned(md).trees[x] == md.trees[x]
    {
      assert Sound(s, md.trees, x);
      assert IsLive(md, x);
    }
  }

  /** Pruning keeps every version restorable and resolves each as before. */
  lemma PruneKeeps(s: Scheme, md: BackupMetadata, objects: Objects)
    requires WellFounded(s) && Restorable(s, md, objects)
    ensures Restorable(s, Pruned(md), objects)
    ensures forall v | v in md.versions :: ResolveVersion(s, Pruned(md), v, false) == ResolveVersion(s, md, v, false)
  {
    var p := Pruned(md);
    forall v | v in md.versions
      ensures AllSound(s, p.trees, md.versions[v].root) && LeavesCovered(p.trees, md.versions[v].root, p.files)
      ensures ResolveVersion(s, p, v, false) == ResolveVersion(s, md, v, false)
    {
      PruneAgrees(s, md, v);
      AgreeSound(s, md.trees, p.trees, md.versions[v].root);
      AgreeWalk(s, md.trees, p.trees, md.versions[v].root, "");
      PruneCovers(md, v);
      CoveredAgrees(s, md.trees, p.trees, md.versions[v].root, p.files, p.files);
    }
    LiveKeysCovered(s, p);
  }

  lemma PruneCovers(md: BackupMetadata, v: VersionId)
    requires v in md.versions && LiveKeys(md) <= md.files.Keys
    ensures LeavesCovered(md.trees, md.versions[v].root, Pruned(md).files)
  {
    forall x, e | Reachable(md.trees, md.versions[v].root, x) && x in md.trees && e in md.trees[x].entries
        && e.node.File?
      ensures LeafKey(e.node.leaf) in Pruned(md).files
    {
      assert IsLive(md, x) && x in LiveTrees(md);
      assert LeafKey(e.node.leaf) in LiveKeys(md);
    }
  }

  /** After pruning a restorable store nothing dead is left in the metadata: its trees are exactly
      the reachable ones, its files exactly the live keys. */
  lemma PruneExact(s: Scheme, md: BackupMetadata, objects: Objects)
    requires WellFounded(s) && Restorable(s, md, objects)
    ensures Pruned(md).trees.Keys == LiveTrees(Pruned(md)) && Pruned(md).files.Keys == LiveKeys(Pruned(md))
    ensures LiveTrees(Pruned(md)) == LiveTrees(md) && LiveKeys(Pruned(md)) == LiveKeys(md)
  {
    var p := Pruned(md);
    forall h ensures h in LiveTrees(p) <==> h in LiveTrees(md) {
      if h in LiveTrees(md) {
        var v :| v in md.versions && Reachable(md.trees, md.versions[v].root, h);
        PruneAgrees(s, md, v);
        AgreeReach(md.trees, p.trees, md.versions[v].root, h);
        assert IsLive(p, h);
      }
    }
    assert LiveTrees(p) == LiveTrees(md) == p.trees.Keys;
    PruneLiveKeys(md);
  }

  lemma PruneLiveKeys(md: BackupMetadata)
    requires LiveTrees(Pruned(md)) == LiveTrees(md)
    ensures LiveKeys(Pruned(md)) == LiveKeys(md)
  {
    var p := Pruned(md);
    forall k ensures k in LiveKeys(p) <==> k in LiveKeys(md) {
      if k in LiveKeys(p) {
        var h, e :| h in LiveTrees(p) && h in p.trees && e in p.trees[h].entries && e.node.File?
            && LeafKey(e.node.leaf) == k;
        assert h in LiveTrees(md) && e in md.trees[h].entries;
      }
      if k in LiveKeys(md) {
        var h, e :| h in LiveTrees(md) && h in md.trees && e in md.trees[h].entries && e.node.File?
            && LeafKey(e.node.leaf) == k;
        assert h in LiveTrees(p) && h in p.trees && e in p.trees[h].entries;
      }
    }
  }

  // ---- Object deletions ----

  /** A name no record of the metadata needs. */
  ghost predicate Unneeded(md: BackupMetadata, name: string)
  {
    forall k | k in md.files && |k| >= 2 :: name != PartKeyFor(k)
  }

  lemma DeleteKeeps(s: Scheme, md: BackupMetadata, objects: Objects, name: string)
    requires Restorable(s, md, objects) && Unneeded(md, name)
    ensures Restorable(s, md, objects - {name})
  {
    forall k | k in md.files ensures PartIntact(objects - {name}, k, md.files[k]) {
      assert PartIntact(objects, k, md.files[k]);
    }
  }

  /** The part of a key that is no longer in the metadata belongs to no other key. */
  lemma DroppedKeyUnneeded(md: BackupMetadata, k: Key)
    requires |k| >= 2 && k !in md.files
    ensures Unneeded(md, PartKeyFor(k))
  {
    forall j | j in md.files && |j| >= 2 ensures PartKeyFor(k) != PartKeyFor(j) {
      if PartKeyFor(k) == PartKeyFor(j) {
        PartKeyInjective(k, j);
      }
    }
  }

  /** GC's test on object names: part-shaped, and its base name is not a key of the metadata. */
  predicate Orphan(md: BackupMetadata, name: string)
  {
    MatchesPartKeyRegex(name) && BaseName(name) !in md.files
  }

  /** The names GC deletes: two hex digits, a slash, and a well-formed key without a record. */
  lemma OrphanIff(md: BackupMetadata, name: string)
    ensures Orphan(md, name) <==> exists dir, k :: IsPartName(name, dir, k) && k !in md.files
  {
    PartKeyRegexIff(name);
  }

  lemma OrphanUnneeded(md: BackupMetadata, name: string)
    requires Orphan(md, name)
    ensures Unneeded(md, name)
  {
    forall k | k in md.files && |k| >= 2 ensures name != PartKeyFor(k) {
      PartKeyOfLive(name, k);
    }
  }
}
