/** Client.DeleteVersion and Client.GC (tsync/client.go) over a store whose writes and deletes may fail.
    The log records the store after every single storage call, so a crash leaves one of its states. */
module Client {
  import opened Base
  import opened Keys
  import opened Metadata
  import opened Mark
  import opened Objects
  import opened Store

  /** Storage (tsync/storage.go): all-or-nothing writes; a failed call may or may not have taken effect. */
  class Storage {
    var meta: Option<BackupMetadata>
    var objects: Objects
    ghost var log: seq<StoreState>
    ghost var failures: nat         // writes of .tsync and listings that reported an error
    ghost var refused: set<string>  // names whose deletion reported an error in the current operation

    ghost function Now(): StoreState
      reads this
    {
      StoreState(meta, objects)
    }

    /** Write of .tsync. */
    method Write(md: BackupMetadata) returns (ok: bool)
      modifies this
      ensures objects == old(objects) && refused == old(refused)
      ensures if ok then meta == Some(md) else meta == old(meta) || meta == Some(md)
      ensures log == old(log) + [Now()]
      ensures failures == old(failures) + if ok then 0 else 1
    {
      var reported: bool, applied: bool := *, *;
      ok := reported && applied;
      failures := failures + if ok then 0 else 1;
      if applied {
        meta := Some(md);
      }
      log := log + [Now()];
    }

    method Delete(name: string) returns (ok: bool)
      modifies this
      ensures meta == old(meta) && failures == old(failures)
      ensures objects == old(objects) || objects == old(objects) - {name}
      ensures if ok then name !in objects && refused == old(refused) else refused == old(refused) + {name}
      ensures log == old(log) + [Now()]
    {
      var reported: bool, applied: bool := *, *;
      ok := reported && applied;
      if applied {
        objects := objects - {name};
      }
      if !ok {
        refused := refused + {name};
      }
      log := log + [Now()];
    }

    method List() returns (ok: bool, names: set<string>)
      modifies this`failures
      ensures ok ==> names == objects.Keys
      ensures failures == old(failures) + if ok then 0 else 1
    {
      ok := *;
      failures := failures + if ok then 0 else 1;
      names := if ok then objects.Keys else {};
    }
  }

  datatype Outcome = Done | NoStore | NoVersion | Corrupt | WriteFailed | ListFailed

  /** Deletes from the map, in map order, what is not live; also returns what was dropped. */
  method Sweep<V>(m: map<string, V>, live: set<string>) returns (kept: map<string, V>, dropped: seq<string>)
    ensures kept == map k | k in m && k in live :: m[k]
    ensures forall k :: k in dropped <==> k in m && k !in live
  {
    kept, dropped := m, [];
    var todo := m.Keys;
    while todo != {}
      invariant todo <= m.Keys
      invariant forall k :: k in kept <==> k in m && (k in live || k in todo)
      invariant forall k | k in kept :: kept[k] == m[k]
      invariant forall k :: k in dropped <==> k in m && k !in live && k !in todo
      decreases todo
    {
      var k :| k in todo;
      if k !in live {
        kept := kept - {k};
        dropped := dropped + [k];
      }
      todo := todo - {k};
    }
  }

  /** Some version does not resolve strictly. */
  ghost predicate Damaged(s: Scheme, md: BackupMetadata)
  {
    exists v :: v in md.versions && !AllSound(s, md.trees, md.versions[v].root)
  }

  /** The states the store went through since log position n. */
  ghost predicate InvSince(s: Scheme, log: seq<StoreState>, n: nat)
  {
    forall i | n <= i < |log| :: StoreInv(s, log[i])
  }

  /** Only the named objects may have gone; the rest is as it was. */
  ghost predicate OnlyRemoved(before: Objects, after: Objects, names: set<string>)
  {
    && after.Keys <= before.Keys
    && (forall n | n in after :: after[n] == before[n])
    && (forall n | n in before && n !in after :: n in names)
  }

  /** The parts of dropped keys; a malformed key has none. */
  function DeadParts(dropped: set<Key>): set<string>
  {
    set k | k in dropped && IsValidFileKey(k) :: PartKeyFor(k)
  }

  ghost function DroppedKeys(md: BackupMetadata): set<Key>
  {
    md.files.Keys - LiveKeys(md)
  }

  /** Nothing unreachable is left in the metadata. */
  ghost predicate NothingDead(md: BackupMetadata)
  {
    md.trees.Keys <= LiveTrees(md) && md.files.Keys <= LiveKeys(md)
  }

  /** The common middle of both operations: mark from every version, then drop what is not marked. */
  method MarkAndSweep(s: Scheme, md: BackupMetadata)
    returns (ok: bool, pruned: BackupMetadata, droppedTrees: seq<Hash>, droppedFiles: seq<Key>)
    ensures ok <==> !Damaged(s, md)
    ensures ok ==> pruned == Pruned(md) && (forall k :: k in droppedFiles <==> k in DroppedKeys(md))
    ensures ok ==> (droppedTrees == [] && droppedFiles == [] <==> NothingDead(md))
    ensures ok && NothingDead(md) ==> pruned == md
  {
    var marker := new Marker();
    ok := marker.CollectLive(s, md);
    pruned, droppedTrees, droppedFiles := md, [], [];
    if !ok {
      return;
    }
    var trees, files;
    trees, droppedTrees := Sweep(md.trees, marker.liveTrees);
    files, droppedFiles := Sweep(md.files, marker.liveFiles);
    pruned := md.(trees := trees, files := files);
    NothingDropped(md.trees, LiveTrees(md), trees, droppedTrees);
    NothingDropped(md.files, LiveKeys(md), files, droppedFiles);
  }

  lemma NothingDropped<V>(m: map<string, V>, live: set<string>, kept: map<string, V>, dropped: seq<string>)
    requires kept == map k | k in m && k in live :: m[k]
    requires forall k :: k in dropped <==> k in m && k !in live
    ensures dropped == [] <==> m.Keys <= live
    ensures m.Keys <= live ==> kept == m
  {
    if dropped != [] {
      assert dropped[0] in dropped;
    } else {
      forall k | k in m ensures k in live {
        assert k !in dropped;
      }
    }
  }

  /** One metadata write, and what it leaves in the log. */
  method Save(s: Scheme, store: Storage, md: BackupMetadata) returns (ok: bool)
    modifies store
    ensures store.objects == old(store.objects) && store.refused == old(store.refused)
    ensures if ok then store.meta == Some(md) else store.meta == old(store.meta) || store.meta == Some(md)
    ensures store.log == old(store.log) + [store.Now()]
    ensures store.failures == old(store.failures) + if ok then 0 else 1
    ensures StoreInv(s, old(store.Now())) && Restorable(s, md, old(store.objects)) ==>
              InvSince(s, store.log, |old(store.log)|)
  {
    ok := store.Write(md);
  }

  method DeleteVersion(s: Scheme, store: Storage, id: VersionId) returns (r: Outcome)
    modifies store
    ensures r.NoStore? <==> old(store.meta).None?
    ensures r.NoVersion? <==> old(store.meta).Some? && id !in old(store.meta).value.versions
    ensures r.Corrupt? <==> old(store.meta).Some? && id in old(store.meta).value.versions
                            && Damaged(s, Without(old(store.meta).value, id))
    ensures r.NoStore? || r.NoVersion? || r.Corrupt? ==>
              store.Now() == old(store.Now()) && store.log == old(store.log)
    ensures !r.ListFailed? && old(store.log) <= store.log
    ensures r.WriteFailed? ==>
              && old(store.failures) < store.failures
              && store.objects == old(store.objects)
              && (store.meta == old(store.meta) || store.meta == Some(Pruned(Without(old(store.meta).value, id))))
    ensures r.Done? ==>
              var md := Without(old(store.meta).value, id);
              && store.meta == Some(Pruned(md))
              && OnlyRemoved(old(store.objects), store.objects, DeadParts(DroppedKeys(md)))
              && (forall n | n in DeadParts(DroppedKeys(md)) && n in store.objects :: n in store.refused)
    ensures store.meta != old(store.meta) || r.Done? ==>
              && old(store.meta).Some? && store.meta.Some?
              && DropsVersion(old(store.meta).value.versions, store.meta.value.versions, id)
    ensures store.refused <= if r.Done? then DeadParts(DroppedKeys(Without(old(store.meta).value, id))) else {}
    ensures WellFounded(s) && StoreInv(s, old(store.Now())) ==> InvSince(s, store.log, |old(store.log)|)
  {
    store.refused := {};
    if store.meta.None? {
      return NoStore;
    }
    var loaded := store.meta.value;
    if id !in loaded.versions {
      return NoVersion;
    }
    var md := Without(loaded, id);
    var marked, pruned, _, dropped := MarkAndSweep(s, md);
    if !marked {
      return Corrupt;
    }
    ghost var n := |store.log|;
    if WellFounded(s) && StoreInv(s, store.Now()) {
      WithoutKeeps(s, loaded, store.objects, id);
      PruneKeeps(s, md, store.objects);
    }
    DeletedExact(loaded, id);
    var ok := Save(s, store, pruned);
    if !ok {
      return WriteFailed;
    }
    RemoveParts(s, store, pruned, dropped, DroppedKeys(md), n);
    return Done;
  }

  /** A clean-up under way: only doomed objects went, the metadata stays as written, and no state on the
      way lost a needed object. */
  ghost predicate Cleanup(s: Scheme, md: BackupMetadata, doomed: set<string>, n: nat,
                          before: Objects, log0: seq<StoreState>, now: Objects, log: seq<StoreState>)
  {
    && log0 <= log && n <= |log0|
    && (forall i | |log0| <= i < |log| :: log[i].meta == Some(md))
    && OnlyRemoved(before, now, doomed)
    && (Restorable(s, md, before) ==> Restorable(s, md, now))
    && (Restorable(s, md, before) && InvSince(s, log0, n) ==> InvSince(s, log, n))
  }

  lemma CleanupStep(s: Scheme, md: BackupMetadata, doomed: set<string>, n: nat,
                    before: Objects, log0: seq<StoreState>, now: Objects, log: seq<StoreState>,
                    name: string, after: Objects)
    requires Cleanup(s, md, doomed, n, before, log0, now, log)
    requires name in doomed && Unneeded(md, name) && (after == now || after == now - {name})
    ensures Cleanup(s, md, doomed, n, before, log0, after, log + [StoreState(Some(md), after)])
  {
    if Restorable(s, md, now) {
      DeleteKeeps(s, md, now, name);
    }
  }

  /** One deletion of step 6; malformed keys are skipped. */
  method RemovePart(s: Scheme, store: Storage, md: BackupMetadata, k: Key, ghost doomed: set<string>, ghost n: nat,
                    ghost before: Objects, ghost log0: seq<StoreState>)
    requires store.meta == Some(md) && k !in md.files && (IsValidFileKey(k) ==> PartKeyFor(k) in doomed)
    requires Cleanup(s, md, doomed, n, before, log0, store.objects, store.log)
    modifies store
    ensures store.meta == Some(md) && Cleanup(s, md, doomed, n, before, log0, store.objects, store.log)
    ensures IsValidFileKey(k) && PartKeyFor(k) in store.objects ==> PartKeyFor(k) in store.refused
    ensures store.objects.Keys <= old(store.objects).Keys
    ensures old(store.refused) <= store.refused <= old(store.refused) + doomed
  {
    if IsValidFileKey(k) {
      var name := PartKeyFor(k);
      DroppedKeyUnneeded(md, k);
      var _ := store.Delete(name);
      CleanupStep(s, md, doomed, n, before, log0, old(store.objects), old(store.log), name, store.objects);
    }
  }

  /** Of the parts of the first i keys those still there were refused. */
  ghost predicate Tried(ks: seq<Key>, i: nat, objects: Objects, refused: set<string>)
  {
    forall j | 0 <= j < i && j < |ks| && IsValidFileKey(ks[j]) && PartKeyFor(ks[j]) in objects ::
        PartKeyFor(ks[j]) in refused
  }

  /** Step 6: best effort. */
  method RemoveParts(s: Scheme, store: Storage, md: BackupMetadata, dropped: seq<Key>, ghost keys: set<Key>,
                     ghost n: nat)
    requires store.meta == Some(md) && n <= |store.log| && store.refused == {}
    requires forall k :: k in dropped <==> k in keys
    requires forall k | k in keys :: k !in md.files
    modifies store
    ensures store.meta == Some(md)
    ensures Cleanup(s, md, DeadParts(keys), n, old(store.objects), old(store.log), store.objects, store.log)
    ensures forall m | m in DeadParts(keys) && m in store.objects :: m in store.refused
    ensures store.refused <= DeadParts(keys)
  {
    ghost var doomed := DeadParts(keys);
    var i := 0;
    while i < |dropped|
      invariant 0 <= i <= |dropped| && store.meta == Some(md)
      invariant Cleanup(s, md, doomed, n, old(store.objects), old(store.log), store.objects, store.log)
      invariant Tried(dropped, i, store.objects, store.refused) && store.refused <= doomed
    {
      var k := dropped[i];
      assert k in keys;
      RemovePart(s, store, md, k, doomed, n, old(store.objects), old(store.log));
      i := i + 1;
    }
    AllTried(dropped, keys, store.objects, store.refused);
  }

  lemma AllTried(dropped: seq<Key>, keys: set<Key>, objects: Objects, refused: set<string>)
    requires forall k :: k in dropped <==> k in keys
    requires Tried(dropped, |dropped|, objects, refused)
    ensures forall m | m in DeadParts(keys) && m in objects :: m in refused
  {
    forall m | m in DeadParts(keys) && m in objects ensures m in refused {
      var k :| k in keys && IsValidFileKey(k) && PartKeyFor(k) == m;
      assert k in dropped;
      var j :| 0 <= j < |dropped| && dropped[j] == k;
    }
  }

  /** Nothing for a collection to do. */
  ghost predicate Collected(md: BackupMetadata, objects: Objects)
  {
    NothingDead(md) && Orphans(md, objects) == {}
  }

  method GC(s: Scheme, store: Storage) returns (r: Outcome)
    modifies store
    ensures r.NoStore? <==> old(store.meta).None?
    ensures r.Corrupt? <==> old(store.meta).Some? && Damaged(s, old(store.meta).value)
    ensures r.NoStore? || r.Corrupt? ==> store.Now() == old(store.Now()) && store.log == old(store.log)
    ensures !r.NoVersion? && old(store.log) <= store.log
    ensures r.WriteFailed? || r.ListFailed? ==> old(store.failures) < store.failures
    ensures r.WriteFailed? ==>
              && store.objects == old(store.objects)
              && (store.meta == old(store.meta) || store.meta == Some(Pruned(old(store.meta).value)))
    ensures r.ListFailed? ==> store.objects == old(store.objects) && store.meta == Some(Pruned(old(store.meta).value))
    ensures r.Done? ==>
              && store.meta == Some(Pruned(old(store.meta).value))
              && OnlyRemoved(old(store.objects), store.objects, Orphans(store.meta.value, old(store.objects)))
              && (forall n | n in store.objects && Orphan(store.meta.value, n) :: n in store.refused)
    ensures old(store.meta).Some? ==>
              store.meta.Some? && store.meta.value.versions == old(store.meta).value.versions
    ensures store.refused <= if r.Done? then Orphans(Pruned(old(store.meta).value), old(store.objects)) else {}
    ensures old(store.meta).Some? && Collected(old(store.meta).value, old(store.objects)) ==>
              !r.WriteFailed? && store.log == old(store.log) && store.Now() == old(store.Now())
    ensures WellFounded(s) && StoreInv(s, old(store.Now())) ==> InvSince(s, store.log, |old(store.log)|)
  {
    store.refused := {};
    if store.meta.None? {
      return NoStore;
    }
    var loaded := store.meta.value;
    var marked, md, droppedTrees, droppedFiles := MarkAndSweep(s, loaded);
    if !marked {
      return Corrupt;
    }
    ghost var n := |store.log|;
    if WellFounded(s) && StoreInv(s, store.Now()) {
      PruneKeeps(s, loaded, store.objects);
    }
    if droppedTrees != [] || droppedFiles != [] {
      var ok := Save(s, store, md);
      if !ok {
        return WriteFailed;
      }
    }
    r := Collect(s, store, md, n);
  }

  /** Step 5 of GC: list everything, delete the orphans. */
  method Collect(s: Scheme, store: Storage, md: BackupMetadata, ghost n: nat) returns (r: Outcome)
    requires store.meta == Some(md) && n <= |store.log| && store.refused == {}
    modifies store
    ensures r.Done? || r.ListFailed?
    ensures r.ListFailed? ==> old(store.failures) < store.failures
    ensures store.meta == Some(md)
    ensures Cleanup(s, md, Orphans(md, old(store.objects)), n,
                    old(store.objects), old(store.log), store.objects, store.log)
    ensures r.Done? ==> forall m | m in store.objects && Orphan(md, m) :: m in store.refused
    ensures store.refused <= Orphans(md, old(store.objects))
    ensures r.ListFailed? || Orphans(md, old(store.objects)) == {} ==>
              store.log == old(store.log) && store.objects == old(store.objects) && store.refused == {}
  {
    var listed, names := store.List();
    if !listed {
      return ListFailed;
    }
    RemoveOrphans(s, store, md, names, n);
    return Done;
  }

  function Orphans(md: BackupMetadata, objects: Objects): set<string>
  {
    set m | m in objects && Orphan(md, m)
  }

  /** Every listed orphan, in listing order. */
  method RemoveOrphans(s: Scheme, store: Storage, md: BackupMetadata, names: set<string>, ghost n: nat)
    requires store.meta == Some(md) && n <= |store.log| && names == store.objects.Keys && store.refused == {}
    modifies store
    ensures store.meta == Some(md)
    ensures Cleanup(s, md, Orphans(md, old(store.objects)), n,
                    old(store.objects), old(store.log), store.objects, store.log)
    ensures forall m | m in store.objects && Orphan(md, m) :: m in store.refused
    ensures store.refused <= Orphans(md, old(store.objects))
    ensures Orphans(md, old(store.objects)) == {} ==> store.log == old(store.log) && store.objects == old(store.objects)
  {
    ghost var doomed := Orphans(md, store.objects);
    var todo := names;
    while todo != {}
      invariant todo <= names && store.meta == Some(md) && store.refused <= doomed
      invariant Cleanup(s, md, doomed, n, old(store.objects), old(store.log), store.objects, store.log)
      invariant forall m | m in store.objects && Orphan(md, m) && m !in todo :: m in store.refused
      invariant doomed == {} ==> store.log == old(store.log) && store.objects == old(store.objects)
      decreases todo
    {
      var m :| m in todo;
      if MatchesPartKeyRegex(m) && BaseName(m) !in md.files {
        OrphanUnneeded(md, m);
        assert m in doomed;
        ghost var now, log := store.objects, store.log;
        var _ := store.Delete(m);
        CleanupStep(s, md, doomed, n, old(store.objects), old(store.log), now, log, m, store.objects);
      }
      todo := todo - {m};
    }
  }

  /** A collection of a restorable store whose deletes all succeed leaves nothing to collect. */
  lemma CollectedAfterGC(s: Scheme, loaded: BackupMetadata, before: Objects, after: Objects)
    requires WellFounded(s) && Restorable(s, loaded, before)
    requires forall n | n in after :: !Orphan(Pruned(loaded), n)
    ensures Collected(Pruned(loaded), after)
    ensures Pruned(loaded).trees.Keys == LiveTrees(loaded) && Pruned(loaded).files.Keys == LiveKeys(loaded)
  {
    PruneExact(s, loaded, before);
  }

  /** An immediately repeated collection: if no delete of the first was refused, the second one writes
      and deletes nothing. */
  method CollectTwice(s: Scheme, store: Storage)
    returns (first: Outcome, second: Outcome,
             ghost refused: set<string>, ghost between: StoreState, ghost log: seq<StoreState>)
    modifies store
    ensures old(store.log) <= log <= store.log && (first.Done? ==> old(store.meta).Some?)
    ensures WellFounded(s) && StoreInv(s, old(store.Now())) && first.Done? && refused == {} ==>
              && between.meta == Some(Pruned(old(store.meta).value)) && Collected(between.meta.value, between.objects)
              && store.Now() == between && store.log == log && (second.Done? || second.ListFailed?)
  {
    first := GC(s, store);
    refused, between, log := store.refused, store.Now(), store.log;
    if WellFounded(s) && StoreInv(s, old(store.Now())) && first.Done? && refused == {} {
      CollectedAfterGC(s, old(store.meta).value, old(store.objects), store.objects);
      PruneKeeps(s, old(store.meta).value, old(store.objects));
    }
    second := GC(s, store);
  }
}
