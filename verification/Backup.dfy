// backup.go: uploadFiles and what it calls.
module Backups {
  import opened Utf8
  import opened Wrappers
  import opened ChunkKeys
  import opened Archive
  import opened IndexDoc
  import opened Protocol
  import opened ProtocolSafety
  import opened Remotes
  import opened DeletionPass
  import opened VersionList
  import opened Indexes
  import opened UploadPlan
  import opened Walks
  import opened Scanner

  // k holds the bytes of some file indexed under k.
  predicate FromDisk(files: Files, disk: Disk, k: Key, content: Bytes) {
    exists p | p in files :: KeyOf(files[p]) == k && p in disk && disk[p] == content
  }

  // Uploading may only add missing chunks of the new index, each with the
  // bytes of one of its files.
  ghost predicate Uploaded(s: State, s': State, disk: Disk) {
    && s.session.Backup? && s'.session.Backup?
    && s'.session == s.session.(vanished := s'.session.vanished)
    && s' == s.(now := s'.now, store := s'.store, session := s'.session)
    && s.now <= s'.now
    && s.session.vanished <= s'.session.vanished
    && (forall k :: k in s.store ==> k in s'.store && s'.store[k] == s.store[k])
    && (forall k :: k in s'.store && k !in s.store ==>
        k in ToUpload(s) && FromDisk(s.session.built.entries.files, disk, k, s'.store[k].content))
  }

  lemma UploadedTwice(s: State, s1: State, s2: State, disk: Disk)
    requires Uploaded(s, s1, disk) && Uploaded(s1, s2, disk)
    ensures Uploaded(s, s2, disk)
  {
  }

  // uploadPayload: one chunk, unless it is there already.
  method UploadPayload(remote: Remote, task: Task, disk: Disk) returns (ok: bool)
    requires remote.Valid() && Uploading(remote.Here())
    requires task.key in ToUpload(remote.Here()) && task.key !in remote.Here().session.vanished
    requires Uploads(task, remote.Here().session.built.entries.files)
    modifies remote
    ensures remote.Valid() && old(remote.trace) <= remote.trace
    ensures remote.versions == old(remote.versions)
    ensures Uploaded(old(remote.Here()), remote.Here(), disk)
    ensures remote.Here().session.vanished <= old(remote.Here()).session.vanished + {task.key}
    ensures old(remote.faults) <= remote.faults && (remote.faults == old(remote.faults) ==> ok)
    ensures ok ==> task.key in remote.Here().store.Keys + remote.Here().session.vanished
  {
    hide Newest, Marshal, Behaviour, IndexChunks, Enabled, Apply, Uploaded, FromDisk;
    var k := task.key;
    ghost var s := remote.Here();
    NothingUploaded(s, disk);
    var header := remote.Head(k);
    if header.Err? {
      return false;
    }
    if header.value.Some? {
      return true;
    }
    var content;
    if task.localPath in disk {
      content := disk[task.localPath];
    } else {
      remote.FileGone(k);
      OneUploaded(s, remote.Here(), disk, task);
      return true;
    }
    var r := remote.PutChunk(k, content);
    OneUploaded(s, remote.Here(), disk, task);
    ok := r != Failed;
  }

  // The upload of every task, in any order the workers take.
  method UploadTasks(remote: Remote, tasks: seq<Task>, disk: Disk) returns (ok: bool)
    requires remote.Valid() && Uploading(remote.Here()) && remote.Here().session.vanished == {}
    requires OneTaskEach(tasks, remote.Here().session.built.entries.files, ToUpload(remote.Here()))
    modifies remote
    ensures remote.Valid() && old(remote.trace) <= remote.trace
    ensures remote.versions == old(remote.versions)
    ensures Uploaded(old(remote.Here()), remote.Here(), disk)
    ensures ok ==> ToUpload(remote.Here()) <= remote.Here().store.Keys + remote.Here().session.vanished
    ensures old(remote.faults) <= remote.faults && (remote.faults == old(remote.faults) ==> ok)
  {
    hide Newest, Marshal, Behaviour, IndexChunks, Uploaded, Enabled, Apply;
    ghost var s0 := remote.Here();
    NothingUploaded(s0, disk);
    for i := 0 to |tasks|
      invariant remote.Valid() && old(remote.trace) <= remote.trace
      invariant remote.versions == old(remote.versions)
      invariant Uploaded(s0, remote.Here(), disk)
      invariant Uploading(remote.Here()) && SameUpload(s0, remote.Here()) && old(remote.faults) <= remote.faults
      invariant forall j :: i <= j < |tasks| ==> tasks[j].key !in remote.Here().session.vanished
      invariant forall j :: 0 <= j < i ==> tasks[j].key in remote.Here().store.Keys + remote.Here().session.vanished
    {
      ghost var s1 := remote.Here();
      var sent := UploadPayload(remote, tasks[i], disk);
      UploadedTwice(s0, s1, remote.Here(), disk);
      UploadedKeeps(s1, remote.Here(), disk);
      if !sent {
        return false;
      }
    }
    return true;
  }

  ghost predicate SameUpload(s: State, s': State) {
    && s.session.Backup? && s'.session.Backup?
    && s'.session.built == s.session.built && s'.session.loaded == s.session.loaded
  }

  lemma OneUploaded(s: State, s': State, disk: Disk, task: Task)
    requires s.session.Backup? && s'.session.Backup?
    requires s' == s.(now := s'.now, store := s'.store, session := s'.session) && s.now <= s'.now
    requires s'.session == s.session.(vanished := s'.session.vanished) && s.session.vanished <= s'.session.vanished
    requires var k := task.key;
      && Uploads(task, s.session.built.entries.files) && k in ToUpload(s) && k !in s.store
      && (s'.store == s.store || (task.localPath in disk && k in s'.store
          && s'.store == s.store[k := s'.store[k]] && s'.store[k].content == disk[task.localPath]))
    ensures Uploaded(s, s', disk)
  {
  }

  lemma NothingUploaded(s: State, disk: Disk)
    requires s.session.Backup?
    ensures Uploaded(s, s, disk)
  {
  }

  lemma UploadedKeeps(s: State, s': State, disk: Disk)
    requires Uploaded(s, s', disk)
    ensures SameUpload(s, s') && s'.session.pass == s.session.pass && ToUpload(s') == ToUpload(s)
    ensures s.store.Keys <= s'.store.Keys && s.session.vanished <= s'.session.vanished
    ensures s.now <= s'.now && s'.session == s.session.(vanished := s'.session.vanished)
    ensures s' == s.(now := s'.now, store := s'.store, session := s'.session)
  {
  }

  // Marks carried over with their clamp; the clock is read for every one.
  ghost predicate AllClamped(old0: Marks, marks: Marks, lo: int, hi: int) {
    marks.Keys == old0.Keys && forall k :: k in marks ==> Clamped(old0[k], marks[k], lo, hi)
  }

  method ClampMarks(remote: Remote, loaded: Marks, start: int, deleteTime: int) returns (marks: Marks)
    requires remote.Valid() && start <= remote.now && deleteTime == start + GRACE
    modifies remote
    ensures remote.Valid() && old(remote.trace) <= remote.trace
    ensures remote.versions == old(remote.versions) && old(remote.now) <= remote.now
    ensures remote.Here() == old(remote.Here()).(now := remote.now)
    ensures AllClamped(loaded, marks, start, remote.now) && remote.faults == old(remote.faults)
    // a mark up to three years ahead is kept, one further ahead cut to a week
    ensures marks.Keys == loaded.Keys
    ensures forall k :: k in loaded && loaded[k] <= start + 3 * YEAR ==> marks[k] == loaded[k]
    ensures forall k :: k in loaded && remote.now + 3 * YEAR < loaded[k] ==> marks[k] == start + 7 * DAY
  {
    hide Newest, Marshal, Behaviour, IndexChunks, Enabled, Apply;
    marks := map[];
    var todo := loaded.Keys;
    while todo != {}
      invariant todo <= loaded.Keys
      invariant remote.Valid() && old(remote.trace) <= remote.trace
      invariant remote.versions == old(remote.versions) && old(remote.now) <= remote.now
      invariant remote.Here() == old(remote.Here()).(now := remote.now) && remote.faults == old(remote.faults)
      invariant marks.Keys == loaded.Keys - todo
      invariant forall k :: k in marks ==> Clamped(loaded[k], marks[k], start, remote.now)
      decreases todo
    {
      ghost var some := ElementOf(todo);
      var k :| k in todo;
      todo := todo - {k};
      var v := loaded[k];
      var now := remote.Clock();
      if v > now + CLAMP_AFTER {
        v := deleteTime;
      }
      marks := marks[k := v];
    }
  }

  // The chunks of the old index that no local file uses any more.
  method MarkUnused(used: ChunksMap, kept: Marks, deleteTime: int) returns (marks: Marks)
    ensures marks == map k | k in kept.Keys + used.Keys && (k in kept || !used[k]) ::
      if k in used && !used[k] then deleteTime else kept[k]
  {
    marks := kept;
    var todo := used.Keys;
    while todo != {}
      invariant todo <= used.Keys
      invariant forall k :: k in marks <==> k in kept || (k in used && k !in todo && !used[k])
      invariant forall k :: k in marks ==>
        marks[k] == if k in used && k !in todo && !used[k] then deleteTime else kept[k]
      decreases todo
    {
      ghost var some := ElementOf(todo);
      var k :| k in todo;
      todo := todo - {k};
      if !used[k] {
        marks := marks[k := deleteTime];
      }
    }
  }

  lemma MarksArePlanned(loaded: IndexVal, files: Files, clamped: Marks, used: ChunksMap, kept: Marks, marks: Marks,
                        lo: int, hi: int, later: int)
    requires AllClamped(loaded.deleted, clamped, lo, hi) && hi <= later
    requires kept == map k | k in clamped && k !in Chunks(files) :: clamped[k]
    requires used.Keys == IndexChunks(loaded) && forall k :: k in used ==> (used[k] <==> k in Chunks(files))
    requires marks == map k | k in kept.Keys + used.Keys && (k in kept || !used[k]) ::
      if k in used && !used[k] then lo + GRACE else kept[k]
    ensures PlannedMarks(loaded, Chunks(files), marks, lo, later)
  {
    hide IndexChunks, Chunks;
  }

  lemma PlannedLater(loaded: IndexVal, kept: set<Key>, marks: Marks, lo: int, hi: int, later: int)
    requires PlannedMarks(loaded, kept, marks, lo, hi) && hi <= later
    ensures PlannedMarks(loaded, kept, marks, lo, later)
  {
    hide IndexChunks;
  }

  // The deletion pass of a backup: from planned marks, over the store as the
  // uploads left it.
  ghost predicate PassRan(loaded: IndexVal, built: IndexVal, before: Store, after: Store, start: int, pass: int) {
    exists planned: Marks, full: Store ::
      && PlannedMarks(loaded, IndexChunks(built), planned, start, pass)
      && AllUploaded(loaded, built, before, full)
      && built.deleted == PassMarks(planned, full, pass)
      && after == PassStore(planned, full, pass)
  }

  ghost predicate AllUploaded(loaded: IndexVal, built: IndexVal, before: Store, full: Store) {
    && full.Keys == before.Keys + (IndexChunks(built) - IndexChunks(loaded))
    && forall k :: k in before ==> full[k] == before[k]
  }

  // uploadFiles
  method UploadFiles(remote: Remote, localIndex: Index, remoteIndex: Index, disk: Disk) returns (ok: bool, stats: Stats)
    requires remote.Valid() && remote.Here().session.Idle?
    requires localIndex != remoteIndex && remoteIndex.Value() == Current(remote.Here().versions)
    modifies remote, localIndex`deleted, remoteIndex`entries
    ensures remote.Valid() && old(remote.trace) < remote.trace
    ensures remote.Here().versions == old(remote.Here()).versions && remote.versions == old(remote.versions)
    ensures localIndex.entries == old(localIndex.entries)
    ensures ok ==> BackupBuilt(remote.Here(), old(remoteIndex.Value()), localIndex.Value(), old(remote.store), stats)
    ensures !ok ==> remote.Here().session.Idle?
    ensures OnlyUploads(old(remote.store), remote.store, old(remoteIndex.Value()), localIndex.entries.files, disk)
    ensures old(remote.faults) <= remote.faults && (remote.faults == old(remote.faults) ==> ok)
  {
    hide Newest, Marshal, Behaviour, Enabled, Apply, IndexChunks, Uploaded, PlannedMarks, AllClamped, OneTaskEach,
      Counted, PassRan, OnlyUploads, BackupBuilt, Index.ReadyForPass, PassMarks, PassStore;
    ghost var loaded := remoteIndex.Value();
    var sent, used, kept, deleteTime;
    ghost var clamped, tasks, s1;
    sent, used, kept, deleteTime, stats, clamped, tasks, s1 := UploadNew(remote, localIndex, remoteIndex, disk);
    ghost var s2 := remote.Here();
    UploadsOnly(s1, s2, disk, remote.store);
    if !sent {
      remote.End();
      return false, stats;
    }
    ghost var planned;
    ok, planned := MarkAndDelete(remote, localIndex, used, kept, deleteTime, clamped, s1.now);
    UploadsOnly(s1, s2, disk, remote.store);
    if !ok {
      remote.End();
      return;
    }
    SameFilesSameChunks(s2.session.built, localIndex.Value());
    BackupIsBuilt(loaded, planned, localIndex.Value(), s1, s2, remote.Here(), disk, tasks, stats);
  }

  // The beginning of uploadFiles, up to the last upload. clamped, tasks and
  // s1 are the carried-over marks, the plan and the state uploads began in.
  method UploadNew(remote: Remote, localIndex: Index, remoteIndex: Index, disk: Disk)
    returns (sent: bool, used: ChunksMap, kept: Marks, deleteTime: int, stats: Stats,
             ghost clamped: Marks, ghost tasks: seq<Task>, ghost s1: State)
    requires remote.Valid() && remote.Here().session.Idle?
    requires localIndex != remoteIndex && remoteIndex.Value() == Current(remote.Here().versions)
    modifies remote, remoteIndex`entries
    ensures remote.Valid() && old(remote.trace) < remote.trace
    ensures remote.Here().versions == old(remote.Here()).versions && remote.versions == old(remote.versions)
    ensures Uploading(s1) && s1.store == old(remote.store) && s1.session.base == s1.store.Keys
      && s1.session.vanished == {}
    ensures s1.session.loaded == old(remoteIndex.Value()) && s1.session.built.entries == localIndex.entries
    ensures Uploaded(s1, remote.Here(), disk) && Uploading(remote.Here())
    ensures s1.now <= remote.now && remote.Here().session == s1.session.(vanished := remote.Here().session.vanished)
    ensures AllClamped(s1.session.loaded.deleted, clamped, s1.session.start, s1.now)
    ensures deleteTime == s1.session.start + GRACE
    ensures used.Keys == IndexChunks(s1.session.loaded)
    ensures forall k :: k in used ==> (used[k] <==> k in Chunks(localIndex.entries.files))
    ensures kept == map k | k in clamped && k !in Chunks(localIndex.entries.files) :: clamped[k]
    ensures OneTaskEach(tasks, localIndex.entries.files, ToUpload(remote.Here()))
    ensures Counted(stats, tasks, IndexChunks(remote.Here().session.built), IndexChunks(s1.session.loaded))
    ensures sent ==> ToUpload(remote.Here()) <= remote.store.Keys + remote.Here().session.vanished
    ensures old(remote.faults) <= remote.faults && (remote.faults == old(remote.faults) ==> sent)
  {
    hide Newest, Marshal, Behaviour, Enabled, Apply, IndexChunks, Chunks, Uploaded, AllClamped, OneTaskEach, Counted,
      SavedAs, ClockAhead, Current;
    var start := remote.Clock();
    deleteTime := start + GRACE;
    remote.Begin(localIndex.entries);
    var remoteChunks := BuildChunksMap(remoteIndex.entries.files);
    ChunksOfIndex(remoteIndex.Value(), remote.Here());
    remoteIndex.entries := NO_ENTRIES;
    var localChunks := BuildChunksMap(localIndex.entries.files);
    var marks := ClampMarks(remote, remoteIndex.deleted, start, deleteTime);
    clamped, s1 := marks, remote.Here();
    var plan;
    plan, used, kept, stats := PlanUploads(localIndex.entries.files, localChunks, remoteChunks, marks);
    tasks := plan;
    sent := UploadTasks(remote, plan, disk);
    UploadedKeeps(s1, remote.Here(), disk);
  }

  // The end of uploadFiles: marks for what is no longer used, then the pass.
  method MarkAndDelete(remote: Remote, localIndex: Index, used: ChunksMap, kept: Marks, deleteTime: int,
                       ghost clamped: Marks, ghost hi: int) returns (ok: bool, ghost planned: IndexVal)
    requires remote.Valid() && Uploading(remote.Here())
    requires var session := remote.Here().session;
      && session.built.entries == localIndex.entries && deleteTime == session.start + GRACE
      && ToUpload(remote.Here()) <= remote.store.Keys + session.vanished
      && AllClamped(session.loaded.deleted, clamped, session.start, hi) && hi <= remote.now
      && used.Keys == IndexChunks(session.loaded)
      && (forall k :: k in used ==> (used[k] <==> k in Chunks(localIndex.entries.files)))
      && kept == map k | k in clamped && k !in Chunks(localIndex.entries.files) :: clamped[k]
    modifies remote, localIndex`deleted
    ensures remote.Valid() && old(remote.trace) <= remote.trace && remote.versions == old(remote.versions)
    ensures forall k :: k in remote.store ==> k in old(remote.store) && remote.store[k] == old(remote.store)[k]
    ensures localIndex.entries == planned.entries
    ensures PlannedMarks(old(remote.Here()).session.loaded, IndexChunks(localIndex.Value()), planned.deleted,
      old(remote.Here()).session.start, remote.now)
    ensures remote.Here() == old(remote.Here()).(now := remote.now, store := remote.store,
      session := old(remote.Here()).session.(built := localIndex.Value(), pass := Some(remote.now)))
    ensures ok ==> localIndex.deleted == PassMarks(planned.deleted, old(remote.store), remote.now)
    ensures ok ==> remote.store == PassStore(planned.deleted, old(remote.store), remote.now)
    ensures old(remote.faults) <= remote.faults && (remote.faults == old(remote.faults) ==> ok)
  {
    hide Newest, Marshal, Behaviour, Enabled, Apply, IndexChunks, PlannedMarks, AllClamped, Index.ReadyForPass,
      PassMarks, PassStore;
    ghost var s := remote.Here();
    localIndex.deleted := MarkUnused(used, kept, deleteTime);
    planned := localIndex.Value();
    ChunksOfIndex(s.session.loaded, s);
    MarksArePlanned(s.session.loaded, localIndex.entries.files, clamped, used, kept, localIndex.deleted,
      s.session.start, hi, s.now);
    ReadyToDelete(localIndex, s);
    ok := localIndex.DeleteOutdatedChunks(remote);
    SameFilesSameChunks(planned, localIndex.Value());
    SameFilesSameChunks(planned, s.session.built);
    PlannedLater(s.session.loaded, IndexChunks(localIndex.Value()), planned.deleted, s.session.start, s.now,
      remote.now);
  }

  // Whatever is stored afterwards was stored before, or is a chunk the last
  // index did not have, with the bytes of a local file.
  ghost predicate OnlyUploads(before: Store, after: Store, loaded: IndexVal, files: Files, disk: Disk) {
    forall k :: k in after ==>
      || (k in before && after[k] == before[k])
      || (k !in IndexChunks(loaded) && FromDisk(files, disk, k, after[k].content))
  }

  lemma UploadsOnly(s1: State, s2: State, disk: Disk, after: Store)
    requires Uploaded(s1, s2, disk)
    requires forall k :: k in after ==> k in s2.store && after[k] == s2.store[k]
    ensures OnlyUploads(s1.store, after, s1.session.loaded, s1.session.built.entries.files, disk)
  {
    hide FromDisk, IndexChunks;
  }

  lemma ReadyToDelete(index: Index, s: State)
    requires Uploading(s) && s.session.built.entries == index.entries
    requires ToUpload(s) <= s.store.Keys + s.session.vanished
    requires PlannedMarks(s.session.loaded, IndexChunks(s.session.built), index.deleted, s.session.start, s.now)
    ensures index.ReadyForPass(s)
  {
  }

  // A backup that is ready to publish: what it holds and how it got there.
  ghost predicate BackupBuilt(s: State, loaded: IndexVal, built: IndexVal, before: Store, stats: Stats) {
    && s.session.Backup? && Enabled(s, Publish)
    && s.session.loaded == loaded && s.session.built == built && s.session.base == before.Keys
    && (s.session.vanished == {} ==> PassRan(loaded, built, before, s.store, s.session.start, PassTime(s)))
    && stats.cnt == |IndexChunks(built) - IndexChunks(loaded)|
    && stats.uploadSize == SizeOf(IndexChunks(built) - IndexChunks(loaded))
    && stats.totalSize == SizeOf(IndexChunks(built))
  }

  lemma BuiltCanPublish(s: State, loaded: IndexVal, built: IndexVal, before: Store, stats: Stats)
    requires BackupBuilt(s, loaded, built, before, stats)
    ensures s.session.Backup? && s.session.built == built && Enabled(s, Publish)
  {
  }

  lemma ChunksOfIndex(v: IndexVal, s: State)
    requires s.session.Backup? && s.session.loaded == v
    ensures IndexChunks(v) == Chunks(v.entries.files)
    ensures IndexChunks(s.session.built) == Chunks(s.session.built.entries.files)
    ensures ToUpload(s) == Chunks(s.session.built.entries.files) - Chunks(v.entries.files)
  {
  }

  lemma BackupIsBuilt(loaded: IndexVal, planned: IndexVal, built: IndexVal, s1: State, s2: State, s: State,
                      disk: Disk, tasks: seq<Task>, stats: Stats)
    requires Uploading(s1) && Uploaded(s1, s2, disk) && s1.session.loaded == loaded && s1.session.vanished == {}
    requires s1.session.built.entries == planned.entries == built.entries && s1.session.base == s1.store.Keys
    requires ToUpload(s2) <= s2.store.Keys + s2.session.vanished
    requires PlannedMarks(loaded, IndexChunks(built), planned.deleted, s1.session.start, s.now)
    requires s == s2.(now := s.now, store := s.store, session := s2.session.(built := built, pass := Some(s.now)))
    requires built.deleted == PassMarks(planned.deleted, s2.store, s.now)
    requires s.store == PassStore(planned.deleted, s2.store, s.now)
    requires OneTaskEach(tasks, built.entries.files, ToUpload(s2))
    requires Counted(stats, tasks, IndexChunks(built), IndexChunks(loaded))
    ensures BackupBuilt(s, loaded, built, s1.store, stats)
  {
    hide PlannedMarks, Newest, Marshal, IndexChunks, PassMarks, PassStore, Overdue, PassRan, AllUploaded, Uploaded;
    SameFilesSameChunks(built, s1.session.built);
    UploadedKeeps(s1, s2, disk);
    TaskCount(tasks, built.entries.files, ToUpload(s2));
    NothingOverdue(s, planned.deleted, s2.store);
    if s.session.vanished == {} {
      EverythingUploaded(loaded, built, s1, s2, disk);
      PassHasRun(loaded, built, s1.store, s2.store, planned.deleted, s);
    }
  }

  lemma NothingOverdue(s: State, planned: Marks, full: Store)
    requires s.session.Backup? && InPass(s) && PassTime(s) == s.now
    requires s.session.built.deleted == PassMarks(planned, full, s.now)
    ensures Enabled(s, Publish)
  {
  }

  lemma EverythingUploaded(loaded: IndexVal, built: IndexVal, s1: State, s2: State, disk: Disk)
    requires Uploading(s1) && Uploaded(s1, s2, disk) && s1.session.loaded == loaded
    requires s2.session.vanished == {} && ToUpload(s2) <= s2.store.Keys
    requires IndexChunks(built) == IndexChunks(s1.session.built)
    ensures AllUploaded(loaded, built, s1.store, s2.store)
  {
    hide IndexChunks;
  }

  lemma PassHasRun(loaded: IndexVal, built: IndexVal, before: Store, full: Store, planned: Marks, s: State)
    requires s.session.Backup? && PlannedMarks(loaded, IndexChunks(built), planned, s.session.start, s.now)
    requires AllUploaded(loaded, built, before, full)
    requires built.deleted == PassMarks(planned, full, s.now) && s.store == PassStore(planned, full, s.now)
    ensures PassRan(loaded, built, before, s.store, s.session.start, s.now)
  {
  }

  lemma {:induction false} TaskCount(tasks: seq<Task>, files: Files, chunks: set<Key>)
    requires OneTaskEach(tasks, files, chunks)
    ensures |tasks| == |chunks|
  {
    if tasks == [] {
      assert chunks == {};
    } else {
      var last := |tasks| - 1;
      var k := tasks[last].key;
      var rest := tasks[..last];
      forall j | j in chunks - {k} ensures exists i :: 0 <= i < |rest| && rest[i].key == j {
        var i :| 0 <= i < |tasks| && tasks[i].key == j;
        assert rest[i].key == j;
      }
      TaskCount(rest, files, chunks - {k});
    }
  }

  // ---- backupFiles ----

  // Stored bytes are the contents their name says.
  ghost predicate ContentAddressed(store: Store, hash: Bytes -> Hash) {
    forall k :: k in store ==> IsContentOf(store[k].content, k, hash)
  }

  predicate IsContentOf(content: Bytes, k: Key, hash: Bytes -> Hash) {
    |content| == k.size && hash(content) == k.hash
  }

  // No file changed length between the walk and the time it was read.
  ghost predicate SizesMatch(visits: seq<(Path, Node)>, disk: Disk) {
    forall v :: v in visits && v.1.FileNode? && v.0 in disk ==> |disk[v.0]| == v.1.size
  }

  lemma UploadsAreAddressed(visits: seq<(Path, Node)>, skip: set<Bytes>, scanned: Entries, loaded: IndexVal,
                            files: Files,
                            disk: Disk, hash: Bytes -> Hash, before: Store, after: Store)
    requires ScanOf(visits, skip, scanned) && SizesMatch(visits, disk)
    requires files == Hashed(scanned.files, loaded.entries.files, disk, hash)
    requires OnlyUploads(before, after, loaded, files, disk) && ContentAddressed(before, hash)
    ensures ContentAddressed(after, hash)
  {
  }

  // What a backup records: a scan of the roots, its hashes reused from the
  // last index or computed.
  ghost predicate RecordsScan(e: Entries, visits: seq<(Path, Node)>, skip: set<Bytes>, last: Files, disk: Disk,
                              hash: Bytes -> Hash) {
    exists scanned: Entries ::
      ScanOf(visits, skip, scanned) && e == scanned.(files := Hashed(scanned.files, last, disk, hash))
  }

  // So what a backup records holds, of what its walks meet, every directory
  // and link, and every file with the hash it looks to have or has.
  lemma RecordedHolds(e: Entries, roots: seq<(Path, Node)>, skip: set<Bytes>, last: Files, disk: Disk,
                      hash: Bytes -> Hash)
    requires RecordsScan(e, Visits(roots, skip), skip, last, disk, hash)
    ensures HoldsFiles(e.files, roots, skip, last, disk, hash)
    ensures exists scanned :: HoldsMet(scanned, roots, skip) && e == scanned.(files := e.files)
  {
    hide ScanOf, Visits, HoldsFiles, HoldsMet, Hashed;
    var scanned :| ScanOf(Visits(roots, skip), skip, scanned)
      && e == scanned.(files := Hashed(scanned.files, last, disk, hash));
    ScanHoldsMet(roots, skip, scanned);
    HashedHoldsFiles(scanned, roots, skip, last, disk, hash);
  }

  // GenerateLocal. scanned is what the walk found, before hashing.
  method GenerateLocal(localIndex: Index, roots: seq<(Path, Node)>, skip: set<Bytes>, last: Files, disk: Disk,
                       hash: Bytes -> Hash) returns (ghost scanned: Entries)
    requires Consistent(Visits(roots, skip))
    modifies localIndex`entries
    ensures ScanOf(Visits(roots, skip), skip, scanned)
    ensures localIndex.entries == scanned.(files := Hashed(scanned.files, last, disk, hash))
    ensures RecordsScan(localIndex.entries, Visits(roots, skip), skip, last, disk, hash)
    ensures HoldsMet(scanned, roots, skip) && localIndex.entries == scanned.(files := localIndex.entries.files)
    ensures HoldsFiles(localIndex.entries.files, roots, skip, last, disk, hash)
  {
    hide ScanOf, Hashed, Walk, Visits, Consistent, HoldsMet, HoldsFiles;
    var entries := ScanRoots(roots, skip);
    scanned := entries;
    HashedHoldsFiles(entries, roots, skip, last, disk, hash);
    var files := HashFiles(entries.files, last, disk, hash);
    localIndex.entries := entries.(files := files);
  }

  // LoadRemote, where an archive without an index counts as an empty one.
  method LoadLast(remote: Remote, dir: WorkDir) returns (ok: bool, remoteIndex: Index)
    requires remote.Valid() && remote.Here().session.Idle?
    modifies remote`versions, remote`trace, remote`faults, dir`faults
    ensures fresh(remoteIndex)
    ensures remote.Valid() && old(remote.trace) <= remote.trace && remote.Here().session.Idle?
    ensures Current(remote.Here().versions) == Current(old(remote.Here()).versions)
    ensures remote.Here().versions.Keys == {} <==> old(remote.Here()).versions.Keys == {}
    ensures remote.NewestDigest() == old(remote.NewestDigest())
    ensures ok ==> remoteIndex.Value() == Current(remote.Here().versions)
    ensures old(remote.faults) <= remote.faults && old(dir.faults) <= dir.faults
    ensures remote.faults == old(remote.faults) && dir.faults == old(dir.faults) ==> ok
  {
    hide Newest, Marshal, Behaviour, NewestThirty;
    remoteIndex := new Index();
    var loaded := remoteIndex.LoadRemote(remote, dir);
    SweepKeepsNewest(old(remote.Here()).versions, remote.Here().versions);
    ok := loaded.Ok? || loaded.error.NotFound?;
  }

  // backupFiles. built is the index it ends with, digest what its temporary
  // file gave. Where no call fails it succeeds and publishes that index; where
  // one does, the newest index is the old one or, at the last moment, already
  // the new one. It may succeed and leave the old one, exactly if Publishes is
  // false.
  method BackupFiles(remote: Remote, dir: WorkDir, roots: seq<(Path, Node)>, skip: set<Bytes>, disk: Disk,
                     hash: Bytes -> Hash)
    returns (ok: bool, stats: Stats, ghost built: IndexVal, ghost digest: Digest)
    requires remote.Valid() && remote.Here().session.Idle? && Consistent(Visits(roots, skip))
    modifies remote, dir
    ensures remote.Valid() && old(remote.trace) <= remote.trace && remote.Here().session.Idle?
    ensures old(remote.faults) <= remote.faults && old(dir.faults) <= dir.faults
    ensures remote.faults == old(remote.faults) && dir.faults == old(dir.faults) ==> ok
    ensures ok && digest == NoDigest ==> old(dir.faults) < dir.faults
    ensures ok ==> dir.cache == Some(Marshal(built)) && remote.NewestDigest() == digest
    ensures ok ==> (IsPublished(remote.Here().versions, built) <==>
      Publishes(old(remote.Here()).versions, old(remote.NewestDigest()), digest, built))
    ensures ok || Current(remote.Here().versions) != Current(old(remote.Here()).versions) ==>
      RecordsScan(built.entries, Visits(roots, skip), skip, Current(old(remote.Here()).versions).entries.files, disk,
        hash)
    ensures Current(remote.Here().versions) == Current(old(remote.Here()).versions)
      || IsPublished(remote.Here().versions, built)
    ensures SizesMatch(Visits(roots, skip), disk) && ContentAddressed(old(remote.store), hash) ==>
      ContentAddressed(remote.store, hash)
  {
    hide Newest, Current, Marshal, Behaviour, Enabled, Apply, IndexChunks, OnlyUploads, ContentAddressed, ScanOf,
      Hashed, Walk, Visits, Consistent, SizesMatch, PassRan, RecordsScan, SavedAs, ClockAhead, NewestThirty,
      SweptFrom, IsPublished, Publishes, BackupBuilt, AfterUpload;
    stats, built, digest := Stats(0, 0, 0), EMPTY_INDEX, NoDigest;
    ghost var before := remote.Here().versions;
    var remoteIndex;
    ok, remoteIndex := LoadLast(remote, dir);
    if !ok {
      return;
    }
    SamePublished(before, remote.Here().versions, built);
    ghost var v, store0 := remoteIndex.Value(), remote.store;
    var localIndex := new Index();
    ghost var scanned := GenerateLocal(localIndex, roots, skip, remoteIndex.entries.files, disk, hash);
    ok, stats := UploadFiles(remote, localIndex, remoteIndex, disk);
    if SizesMatch(Visits(roots, skip), disk) && ContentAddressed(store0, hash) {
      UploadsAreAddressed(Visits(roots, skip), skip, scanned, v, localIndex.entries.files, disk, hash, store0,
        remote.store);
    }
    built := localIndex.Value();
    if ok {
      ghost var swept;
      BuiltCanPublish(remote.Here(), v, built, store0, stats);
      SamePublished(before, remote.Here().versions, built);
      ok, swept, digest := localIndex.UploadRemote(remote, dir);
    }
  }
}
