// fsck.go: reconciling the newest index with the stored chunks.
module Fscks {
  import opened Wrappers
  import opened ChunkKeys
  import opened Archive
  import opened IndexDoc
  import opened Protocol
  import opened ProtocolAccounts
  import opened DeletionPass
  import opened Remotes
  import opened VersionList
  import opened Indexes
  import opened UploadPlan
  import opened Scans

  datatype FsckResult = Clean | ChunkLost | Aborted

  predicate LosesFiles(files: Files, stored: set<Key>) {
    exists p :: p in files && KeyOf(files[p]) !in stored
  }

  // The loop over the files: those whose chunk is gone leave the index.
  method DropLostFiles(files: Files, cm: ChunksMap) returns (kept: Files, used: ChunksMap, lost: bool)
    requires forall k :: k in cm ==> !cm[k]
    ensures kept == map p | p in files && KeyOf(files[p]) in cm :: files[p]
    ensures used.Keys == cm.Keys && forall k :: k in used ==> (used[k] <==> k in Chunks(kept))
    ensures lost <==> exists p :: p in files && KeyOf(files[p]) !in cm
  {
    kept, used, lost := files, cm, false;
    var todo := files.Keys;
    while todo != {}
      invariant todo <= files.Keys
      invariant kept == map p | p in files && (p in todo || KeyOf(files[p]) in cm) :: files[p]
      invariant used.Keys == cm.Keys
      invariant forall k :: k in used ==> (used[k] <==> exists p :: p in files && p !in todo && KeyOf(files[p]) == k)
      invariant lost <==> exists p :: p in files && p !in todo && KeyOf(files[p]) !in cm
      decreases todo
    {
      ghost var some := ElementOf(todo);
      var fp :| fp in todo;
      todo := todo - {fp};
      var ch := KeyOf(files[fp]);
      if ch in used {
        used := used[ch := true];
      } else {
        kept := kept - {fp};
        lost := true;
      }
    }
  }

  // The loop over the marks: those whose chunk is gone are dropped.
  method DropLostMarks(marks: Marks, cm: ChunksMap) returns (kept: Marks, used: ChunksMap)
    ensures kept == map k | k in marks && k in cm :: marks[k]
    ensures used.Keys == cm.Keys && forall k :: k in used ==> (used[k] <==> cm[k] || k in marks)
  {
    kept, used := marks, cm;
    var todo := marks.Keys;
    while todo != {}
      invariant todo <= marks.Keys
      invariant kept == map k | k in marks && (k in todo || k in cm) :: marks[k]
      invariant used.Keys == cm.Keys
      invariant forall k :: k in used ==> (used[k] <==> cm[k] || k in marks.Keys - todo)
      decreases todo
    {
      ghost var some := ElementOf(todo);
      var k :| k in todo;
      todo := todo - {k};
      if k in used {
        used := used[k := true];
      } else {
        kept := kept - {k};
      }
    }
  }

  // The loop over the listing: stored chunks nothing refers to.
  method MarkFound(marks: Marks, used: ChunksMap, forever: int) returns (r: Marks)
    ensures r == marks + map k | k in used && !used[k] :: forever
  {
    r := marks;
    var todo := used.Keys;
    while todo != {}
      invariant todo <= used.Keys
      invariant r == marks + map k | k in used && k !in todo && !used[k] :: forever
      decreases todo
    {
      ghost var some := ElementOf(todo);
      var k :| k in todo;
      todo := todo - {k};
      if !used[k] {
        r := r[k := forever];
      }
    }
  }

  lemma LoopsReconcile(v: IndexVal, stored: set<Key>, now: int, cm: ChunksMap, files: Files, used1: ChunksMap,
                       kept: Marks, used2: ChunksMap, marks: Marks)
    requires cm.Keys == stored
    requires files == map p | p in v.entries.files && KeyOf(v.entries.files[p]) in cm :: v.entries.files[p]
    requires used1.Keys == cm.Keys && forall k :: k in used1 ==> (used1[k] <==> k in Chunks(files))
    requires kept == map k | k in v.deleted && k in used1 :: v.deleted[k]
    requires used2.Keys == used1.Keys && forall k :: k in used2 ==> (used2[k] <==> used1[k] || k in v.deleted)
    requires marks == kept + map k | k in used2 && !used2[k] :: now + FOREVER
    ensures Reconciled(v, stored, now) == IndexVal(v.entries.(files := files), marks)
  {
    hide Chunks, KeyOf;
    var r := Reconciled(v, stored, now);
    assert r.entries.files == files;
    forall k ensures k in marks <==> k in r.deleted {
    }
    assert r.deleted == marks;
  }

  // What a listing makes of a loaded index, before it is published.
  method ReconcileIndex(remote: Remote, ri: Index, cm: ChunksMap) returns (lost: bool)
    requires remote.Valid() && remote.Here().session.Fsck? && !remote.Here().session.listed
    requires remote.Here().session.index == ri.Value()
    requires cm.Keys == remote.store.Keys && forall k :: k in cm ==> !cm[k]
    modifies remote, ri
    ensures remote.Valid() && old(remote.trace) < remote.trace
    ensures remote.versions == old(remote.versions) && remote.store == old(remote.store)
    ensures remote.faults == old(remote.faults) && old(remote.now) <= remote.now
    ensures ri.Value() == Reconciled(old(ri.Value()), remote.store.Keys, remote.now)
    ensures remote.Here() == old(remote.Here()).(now := remote.now,
      session := Fsck(ri.Value(), old(remote.Here()).session.read, true))
    ensures lost <==> LosesFiles(old(ri.entries).files, remote.store.Keys)
  {
    hide Newest, Marshal, IndexChunks, Chunks, Behaviour, Reconciled;
    ghost var v := ri.Value();
    var files, used, kept;
    files, used, lost := DropLostFiles(ri.entries.files, cm);
    ghost var used1 := used;
    kept, used := DropLostMarks(ri.deleted, used);
    var now := remote.Clock();
    var marks := MarkFound(kept, used, now + FOREVER);
    LoopsReconcile(v, remote.store.Keys, now, cm, files, used1, kept, used, marks);
    ri.entries := ri.entries.(files := files);
    ri.deleted := marks;
    remote.Record(Reconcile);
  }

  // fsckRemote. pass is when the deletion pass ran, forever the mark that
  // chunks nothing refers to are given, after the index it ends with, digest
  // what its temporary file gave.
  method FsckRemote(remote: Remote, dir: WorkDir)
    returns (r: FsckResult, ghost pass: int, ghost forever: int, ghost after: IndexVal, ghost digest: Digest)
    requires remote.Valid() && remote.Here().session.Idle?
    modifies remote, dir
    ensures remote.Valid() && old(remote.trace) <= remote.trace
    ensures remote.Here().session.Idle?
    // nothing is added or overwritten, deletions are those of the pass
    ensures forall k :: k in remote.store ==> k in old(remote.store) && remote.store[k] == old(remote.store)[k]
    ensures !r.Aborted? || Current(remote.Here().versions) != Current(old(remote.Here()).versions) ==>
      FsckPublished(Current(old(remote.Here()).versions), old(remote.store), after, remote.store, pass, forever)
    // after is then the newest, unless neither it nor the newest has a digest
    ensures !r.Aborted? ==> remote.NewestDigest() == digest
    ensures !r.Aborted? ==> (IsPublished(remote.Here().versions, after) <==>
      Publishes(old(remote.Here()).versions, old(remote.NewestDigest()), digest, after))
    ensures !r.Aborted? && digest == NoDigest ==> old(dir.faults) < dir.faults
    ensures !r.Aborted? ==>
      (r.ChunkLost? <==> LosesFiles(Current(old(remote.Here()).versions).entries.files, remote.store.Keys))
    ensures !r.Aborted? ==> old(remote.now) <= pass <= forever - FOREVER <= remote.now
    // in any case the newest is the one it was, or this
    ensures Current(remote.Here().versions) == Current(old(remote.Here()).versions)
      || IsPublished(remote.Here().versions, after)
    // where no call fails it ends well and its pass is complete
    ensures old(remote.faults) <= remote.faults && old(dir.faults) <= dir.faults
    ensures remote.faults == old(remote.faults) && dir.faults == old(dir.faults) ==>
      && (r.Aborted? <==> old(remote.Here()).versions.Keys == {})
      && (!r.Aborted? ==> PassWasComplete(Current(old(remote.Here()).versions), old(remote.store), after, remote.store,
        pass, forever))
  {
    hide Newest, Current, Marshal, IndexChunks, Chunks, Behaviour, Reconciled, Apply, Enabled, NewestThirty,
      SweptFrom, IsPublished, Progress, FsckPublished, PassWasComplete, PassMarks, PassStore, SavedAs, ClockAhead,
      Publishes, AfterUpload, LosesFiles, Remote.NewestDigest;
    ghost var v, store0, before := Current(remote.Here().versions), remote.store, remote.Here().versions;
    forever, after, digest := 0, EMPTY_INDEX, NoDigest;
    ghost var complete;
    var ok, ri;
    ok, ri, pass, complete := LoadAndPrune(remote, dir);
    if !ok {
      return Aborted, pass, forever, after, digest;
    }
    ghost var pruned, loaded := ri.Value(), remote.Here().versions;
    PassOnlyDeletes(v.deleted, store0, pass, complete, pruned.deleted, remote.store);
    ghost var now;
    r, now, digest := ListAndPublish(remote, dir, ri);
    after, forever := ri.Value(), now + FOREVER;
    SamePublished(before, loaded, after);
    ReconcilingPublishes(v, store0, pruned, remote.store, pass, complete, now);
  }

  // From the listing on. now is when the marks were given.
  method ListAndPublish(remote: Remote, dir: WorkDir, ri: Index)
    returns (r: FsckResult, ghost now: int, ghost digest: Digest)
    requires remote.Valid() && remote.Here().session.Fsck? && !remote.Here().session.listed
    requires remote.Here().session.index == ri.Value()
    modifies remote, dir, ri
    ensures remote.Valid() && old(remote.trace) < remote.trace && remote.Here().session.Idle?
    ensures remote.store == old(remote.store) && old(remote.now) <= now <= remote.now
    ensures !r.Aborted? || Current(remote.Here().versions) != Current(old(remote.Here()).versions) ==>
      ri.Value() == Reconciled(old(ri.Value()), remote.store.Keys, now)
    ensures Current(remote.Here().versions) == Current(old(remote.Here()).versions)
      || IsPublished(remote.Here().versions, ri.Value())
    ensures !r.Aborted? ==> remote.NewestDigest() == digest
    ensures !r.Aborted? ==> (IsPublished(remote.Here().versions, ri.Value()) <==>
      Publishes(old(remote.Here()).versions, old(remote.NewestDigest()), digest, ri.Value()))
    ensures !r.Aborted? && digest == NoDigest ==> old(dir.faults) < dir.faults
    ensures !r.Aborted? ==> (r.ChunkLost? <==> LosesFiles(old(ri.entries).files, remote.store.Keys))
    ensures old(remote.faults) <= remote.faults && old(dir.faults) <= dir.faults
    ensures remote.faults == old(remote.faults) && dir.faults == old(dir.faults) ==> !r.Aborted?
  {
    hide Newest, Current, Marshal, IndexChunks, Chunks, Behaviour, Reconciled, Apply, Enabled, NewestThirty,
      SweptFrom, IsPublished, ChunkNames, SavedAs, ClockAhead, Publishes, AfterUpload, LosesFiles;
    now, digest := remote.now, NoDigest;
    var scan := ScanRemoteChunksMap(remote);
    if scan.Err? {
      remote.End();
      return Aborted, now, digest;
    }
    var lost := ReconcileIndex(remote, ri, scan.value);
    now := remote.now;
    ListedCanPublish(remote.Here());
    var ok;
    ghost var swept;
    ok, swept, digest := ri.UploadRemote(remote, dir);
    r := if !ok then Aborted else if lost then ChunkLost else Clean;
  }

  // Up to the end of the deletion pass, whose errors are only logged.
  method LoadAndPrune(remote: Remote, dir: WorkDir) returns (ok: bool, ri: Index, ghost pass: int, ghost complete: bool)
    requires remote.Valid() && remote.Here().session.Idle?
    modifies remote, dir`faults
    ensures fresh(ri) && remote.Valid() && old(remote.trace) <= remote.trace
    ensures Current(remote.Here().versions) == Current(old(remote.Here()).versions)
    ensures remote.Here().versions.Keys == {} <==> old(remote.Here()).versions.Keys == {}
    ensures remote.NewestDigest() == old(remote.NewestDigest())
    ensures !ok ==> remote.Here().session.Idle? && remote.store == old(remote.store)
    ensures ok ==> remote.Here().session == Fsck(ri.Value(), pass, false)
    ensures ok ==> remote.now == pass && old(remote.now) <= pass
    ensures ok ==> ri.entries == Current(old(remote.Here()).versions).entries
    ensures ok ==>
      Progress(Current(old(remote.Here()).versions).deleted, old(remote.store), pass, {}, complete, ri.deleted,
        remote.store)
    ensures old(remote.faults) <= remote.faults && old(dir.faults) <= dir.faults
    ensures remote.faults == old(remote.faults) && dir.faults == old(dir.faults) ==>
      (ok <==> old(remote.Here()).versions.Keys != {}) && (ok ==> complete)
  {
    hide Newest, Current, Marshal, IndexChunks, Chunks, Behaviour, Enabled, Apply, NewestThirty, SweptFrom, Progress,
      PassMarks, PassStore;
    pass, complete := 0, false;
    ri := new Index();
    var loaded := ri.LoadRemote(remote, dir);
    SweepKeepsNewest(old(remote.Here()).versions, remote.Here().versions);
    ok := loaded.Ok?;
    if ok {
      var passed := ri.DeleteOutdatedChunks(remote);
      pass, complete := remote.now, passed;
    }
  }

  // What a fsck publishes of an index: its files except those whose chunk is
  // not stored, and marks for exactly the stored chunks no file uses, each the
  // one it had, or that raised to the end of the minimum storage, or a new one.
  ghost predicate FsckPublished(before: IndexVal, store0: Store, after: IndexVal, store: Store, pass: int,
                                forever: int) {
    && after.entries.dirs == before.entries.dirs && after.entries.links == before.entries.links
    && (forall p :: p in after.entries.files <==> p in before.entries.files && KeyOf(before.entries.files[p]) in store)
    && (forall p :: p in after.entries.files ==> after.entries.files[p] == before.entries.files[p])
    && Accounts(after, store.Keys)
    && forall k :: k in after.deleted ==>
      if k in before.deleted then
        after.deleted[k] == before.deleted[k] || after.deleted[k] == RaisedMark(before.deleted, store0, pass, k)
      else after.deleted[k] == forever
  }

  // The pass met no error: exactly what was due is gone, and the index is
  // reconciled with what that leaves.
  ghost predicate PassWasComplete(before: IndexVal, store0: Store, after: IndexVal, store: Store, pass: int,
                                  forever: int) {
    && store == PassStore(before.deleted, store0, pass)
    && after == Reconciled(IndexVal(before.entries, PassMarks(before.deleted, store0, pass)), store.Keys,
      forever - FOREVER)
  }

  lemma PassOnlyDeletes(m0: Marks, store0: Store, now: int, ok: bool, m: Marks, store: Store)
    requires Progress(m0, store0, now, {}, ok, m, store)
    ensures forall k :: k in store ==> k in store0 && store[k] == store0[k]
  {
  }

  lemma ReconcilingPublishes(v: IndexVal, store0: Store, pruned: IndexVal, store: Store, pass: int, complete: bool,
                             now: int)
    requires pruned.entries == v.entries && Progress(v.deleted, store0, pass, {}, complete, pruned.deleted, store)
    ensures FsckPublished(v, store0, Reconciled(pruned, store.Keys, now), store, pass, now + FOREVER)
    ensures complete ==> PassWasComplete(v, store0, Reconciled(pruned, store.Keys, now), store, pass, now + FOREVER)
  {
    hide RaisedMark, PassMarks, PassStore, PassDue;
    ReconciledAccounts(pruned, store.Keys, now);
    PassComplete(v.deleted, store0, pass, complete, pruned.deleted, store);
  }

  lemma ListedCanPublish(s: State)
    requires s.session.Fsck? && s.session.listed
    ensures Enabled(s, Publish)
  {
  }
}
