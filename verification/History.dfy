// From a backup to its restoration: the bytes that come back are the bytes
// that were read, and whole histories end in an archive that can be restored.
module Histories {
  import opened Utf8
  import opened ChunkKeys
  import opened Archive
  import opened Paths
  import opened MountView
  import opened Protocol
  import opened ProtocolSafety
  import opened Remotes
  import opened Indexes
  import opened Backups
  import opened Fscks
  import opened ScanShapes
  import Walks
  import opened Targets
  import opened DirModes
  import opened Links
  import opened Restores

  // ---- the bytes ----

  // Every recorded key is the key of the bytes on disk.
  ghost predicate KeysOf(files: Files, disk: Scanner.Disk, hash: Bytes -> Hash) {
    forall p :: p in files ==> p in disk && IsContentOf(disk[p], KeyOf(files[p]), hash)
  }

  lemma ScannedKeys(visits: seq<Visit>, skip: set<Bytes>, scanned: Entries, last: Files, disk: Scanner.Disk,
                    hash: Bytes -> Hash)
    requires Scanner.ScanOf(visits, skip, scanned) && SizesMatch(visits, disk)
    requires Scanner.ReuseSound(last, disk, hash, scanned.files)
    ensures KeysOf(Scanner.Hashed(scanned.files, last, disk, hash), disk, hash)
  {
  }

  // What a completed backup publishes can be laid out in an empty directory.
  lemma BackupIsRestorable(roots: seq<Visit>, skip: set<Bytes>, e: Entries, last: Files, disk: Scanner.Disk,
                           hash: Bytes -> Hash)
    requires WalkSound(roots, skip) && RootsFit(roots, skip) && Scanner.Consistent(Walks.Visits(roots, skip))
    requires RecordsScan(e, Walks.Visits(roots, skip), skip, last, disk, hash)
    ensures Restorable(e)
  {
    var scanned :| Scanner.ScanOf(Walks.Visits(roots, skip), skip, scanned)
      && e == scanned.(files := Scanner.Hashed(scanned.files, last, disk, hash));
    hide *;
    HashedKeys(scanned.files, last, disk, hash);
    ShapedIffFit(roots, skip, scanned);
    ScanIsClean(roots, skip, scanned);
    ShapedIsRestorable(scanned);
    FewerFilesAreRestorable(scanned, e.files);
  }

  // And its keys are those of the files that were backed up.
  lemma BackupKeys(visits: seq<Visit>, skip: set<Bytes>, e: Entries, last: Files, disk: Scanner.Disk,
                   hash: Bytes -> Hash)
    requires RecordsScan(e, visits, skip, last, disk, hash)
    requires SizesMatch(visits, disk) && Scanner.ReuseFits(visits, skip, last, disk, hash)
    ensures KeysOf(e.files, disk, hash)
  {
    var scanned :| Scanner.ScanOf(visits, skip, scanned)
      && e == scanned.(files := Scanner.Hashed(scanned.files, last, disk, hash));
    ScannedKeys(visits, skip, scanned, last, disk, hash);
  }

  lemma HashedKeys(scanned: Files, last: Files, disk: Scanner.Disk, hash: Bytes -> Hash)
    ensures Scanner.Hashed(scanned, last, disk, hash).Keys <= scanned.Keys
  {
  }

  // Among the files that were backed up and those that came back, equal keys
  // mean equal bytes.
  ghost predicate KeysTellApart(contents: set<Bytes>, hash: Bytes -> Hash) {
    forall a, b :: a in contents && b in contents && |a| == |b| && hash(a) == hash(b) ==> a == b
  }

  function ContentsOf(chunks: map<LocalName, Inode>): set<Bytes> {
    set n | n in chunks :: chunks[n].content
  }

  // Every file of the index stands in the tree with the bytes it had on disk.
  ghost predicate SameBytes(tree: Tree, chunks: map<LocalName, Inode>, e: Entries, disk: Scanner.Disk) {
    forall p :: p in e.files ==>
      && p in disk && CompsOf(p) in tree && tree[CompsOf(p)].FsFile? && tree[CompsOf(p)].of in chunks
      && chunks[tree[CompsOf(p)].of].content == disk[p]
  }

  lemma OriginalBytes(tree: Tree, chunks: map<LocalName, Inode>, e: Entries, disk: Scanner.Disk, hash: Bytes -> Hash)
    requires WellPathed(e) && Restored(tree, chunks, e, hash) && KeysOf(e.files, disk, hash)
    requires KeysTellApart(disk.Values + ContentsOf(chunks), hash)
    ensures SameBytes(tree, chunks, e, disk)
  {
    hide Lineages, CompsOf, PathOf, IsClean;
    forall p | p in e.files
      ensures p in disk && CompsOf(p) in tree && tree[CompsOf(p)].FsFile? && tree[CompsOf(p)].of in chunks
      ensures chunks[tree[CompsOf(p)].of].content == disk[p]
    {
      var c := CompsOf(p);
      assert PathOf(c) == p && HoldsFile(tree[c], chunks, e.files[p], hash);
      assert disk[p] in disk.Values && chunks[tree[c].of].content in ContentsOf(chunks);
    }
  }

  // ---- mode and time ----

  predicate SameAttributes(a: FileInfo, b: FileInfo) {
    a.mode == b.mode && a.modTime == b.modTime
  }

  // Files that share a chunk agree on mode and time.
  ghost predicate SharersAgree(e: Entries) {
    forall p, q :: p in e.files && q in e.files && KeyOf(e.files[p]) == KeyOf(e.files[q]) ==>
      SameAttributes(e.files[p], e.files[q])
  }

  ghost predicate AttributesKept(chunks: map<LocalName, Inode>, files: Files, p: Path) {
    p in files && LocalNameOf(KeyOf(files[p])) in chunks &&
    var inode := chunks[LocalNameOf(KeyOf(files[p]))];
    inode.mode == files[p].mode && inode.modTime == files[p].modTime
  }

  lemma AgreeingIsKept(chunks: map<LocalName, Inode>, e: Entries, p: Path)
    requires HasAttributes(chunks, e, p, e.files.Keys) && SharersAgree(e)
    ensures AttributesKept(chunks, e.files, p)
  {
    hide LocalNameOf, KeyOf;
    var inode := chunks[LocalNameOf(KeyOf(e.files[p]))];
    var q :| q in e.files && KeyOf(e.files[q]) == KeyOf(e.files[p])
      && inode.mode == e.files[q].mode && inode.modTime == e.files[q].modTime;
    assert SameAttributes(e.files[p], e.files[q]);
  }

  lemma KeptAgree(chunks: map<LocalName, Inode>, files: Files, p: Path, q: Path)
    requires AttributesKept(chunks, files, p) && AttributesKept(chunks, files, q)
    requires KeyOf(files[p]) == KeyOf(files[q])
    ensures SameAttributes(files[p], files[q])
  {
    hide LocalNameOf, KeyOf;
  }

  // After linking, every file has its own mode and time exactly if files that
  // share a chunk, and so an inode, agree on them.
  lemma AttributesKeptIff(chunks: map<LocalName, Inode>, e: Entries)
    requires forall p :: p in e.files ==> HasAttributes(chunks, e, p, e.files.Keys)
    ensures (forall p :: p in e.files ==> AttributesKept(chunks, e.files, p)) <==> SharersAgree(e)
  {
    hide AttributesKept, HasAttributes, SameAttributes, KeyOf;
    if SharersAgree(e) {
      forall p | p in e.files ensures AttributesKept(chunks, e.files, p) {
        AgreeingIsKept(chunks, e, p);
      }
    }
    if forall p :: p in e.files ==> AttributesKept(chunks, e.files, p) {
      forall p, q | p in e.files && q in e.files && KeyOf(e.files[p]) == KeyOf(e.files[q])
        ensures SameAttributes(e.files[p], e.files[q])
      {
        KeptAgree(chunks, e.files, p, q);
      }
    }
  }

  // Two empty files, one of them read-only: one comes back wrong.
  const WRITABLE := FileInfo(0, 420, 0, ZERO_HASH)
  const READ_ONLY := FileInfo(0, 292, 0, ZERO_HASH)
  const TWO_EMPTY_FILES := Entries(map[[SLASH, 0x61] := WRITABLE, [SLASH, 0x62] := READ_ONLY], map[], map[])

  lemma SharedChunkLosesMode(chunks: map<LocalName, Inode>)
    requires forall p :: p in TWO_EMPTY_FILES.files ==>
      HasAttributes(chunks, TWO_EMPTY_FILES, p, TWO_EMPTY_FILES.files.Keys)
    ensures exists p :: p in TWO_EMPTY_FILES.files && !AttributesKept(chunks, TWO_EMPTY_FILES.files, p)
  {
    hide AttributesKept, HasAttributes;
    var files := TWO_EMPTY_FILES.files;
    assert files[[SLASH, 0x61]] == WRITABLE && files[[SLASH, 0x62]] == READ_ONLY;
    assert !SameAttributes(WRITABLE, READ_ONLY) && KeyOf(WRITABLE) == KeyOf(READ_ONLY);
    AttributesKeptIff(chunks, TWO_EMPTY_FILES);
  }

  // ---- all together ----

  // A backup, then a download and a link into an empty target. In a trusted
  // run in which no call fails, what the backup recorded of configured paths
  // that fit comes back: the very entries, and where keys can be trusted the
  // very bytes.
  method BackupThenRestore(remote: Remote, dir: WorkDir, target: Target, roots: seq<Visit>, skip: set<Bytes>,
                           disk: Scanner.Disk, hash: Bytes -> Hash)
    returns (ok: bool, ghost built: IndexVal, ghost digest: Digest, r: Outcome)
    requires remote.Valid() && remote.Here().session.Idle? && target.tree == map[]
    requires WalkSound(roots, skip) && RootsFit(roots, skip) && Scanner.Consistent(Walks.Visits(roots, skip))
    requires SizesMatch(Walks.Visits(roots, skip), disk) && ContentAddressed(remote.store, hash)
    requires remote.NewestDigest() == NoDigest ==> WellPathed(Current(remote.Here().versions).entries)
    modifies remote, dir, target
    ensures remote.Valid()
    ensures ok ==> RecordsScan(built.entries, Walks.Visits(roots, skip), skip,
      Current(old(remote.Here()).versions).entries.files, disk, hash)
    ensures ok && Publishes(old(remote.Here()).versions, old(remote.NewestDigest()), digest, built) ==>
      Current(remote.Here().versions) == built
    ensures ok && Run(remote.trace) && (r == Refused || r == Escaped) ==>
      !Publishes(old(remote.Here()).versions, old(remote.NewestDigest()), digest, built)
    ensures ok && Run(remote.trace) && r == Done ==>
      Restored(target.tree, target.chunks, Current(remote.Here().versions).entries, hash)
    ensures ok && Run(remote.trace) && r == Done
      && Publishes(old(remote.Here()).versions, old(remote.NewestDigest()), digest, built)
      && Scanner.ReuseFits(Walks.Visits(roots, skip), skip, Current(old(remote.Here()).versions).entries.files,
        disk, hash)
      && KeysTellApart(disk.Values + ContentsOf(target.chunks), hash)
      ==> SameBytes(target.tree, target.chunks, built.entries, disk)
    ensures ok && r == Done && NestedAgree(Current(remote.Here().versions).entries.dirs) ==>
      ModesKept(target.modes, Current(remote.Here().versions).entries.dirs)
    // so where no call fails in a trusted run, the backup is restored
    ensures Faults(remote, dir, target) == old(Faults(remote, dir, target)) ==> ok && r != Faulty
    ensures Faults(remote, dir, target) == old(Faults(remote, dir, target)) && Run(remote.trace) ==>
      ok && r == Done && Restored(target.tree, target.chunks, built.entries, hash)
  {
    hide WalkSound, RootsFit, Scanner.Consistent, Walks.Visits, SizesMatch, Scanner.ReuseFits, ContentAddressed,
      RecordsScan, Newest, Current, Run, WellPathed, Restored, Shaped, HasAttributes, KeysOf,
      KeysTellApart, ContentsOf, SameBytes, Behaviour, SavedAs, ClockAhead, Remote.NewestDigest, IsPublished,
      NestedAgree, ModesKept;
    ghost var visits := Walks.Visits(roots, skip);
    ghost var last := Current(remote.Here().versions).entries.files;
    var stats;
    ok, stats, built, digest := BackupFiles(remote, dir, roots, skip, disk, hash);
    r := Faulty;
    if !ok {
      return;
    }
    ghost var e, trace := Current(remote.Here().versions).entries, remote.trace;
    PublishedIsCurrent(remote.Here().versions, built);
    BackupIsRestorable(roots, skip, built.entries, last, disk, hash);
    r := DownloadThenLink(remote, dir, target, hash);
    if Run(remote.trace) {
      RunPrefix(trace, remote.trace);
    }
    if Scanner.ReuseFits(visits, skip, last, disk, hash) {
      BackupKeys(visits, skip, built.entries, last, disk, hash);
      if r == Done && Run(remote.trace) && KeysTellApart(disk.Values + ContentsOf(target.chunks), hash)
        && e == built.entries {
        OriginalBytes(target.tree, target.chunks, e, disk, hash);
      }
    }
  }

  lemma RunPrefix(a: seq<State>, b: seq<State>)
    requires a != [] && a <= b && Run(b)
    ensures Run(a)
  {
    hide Start, Timely, Enabled, Apply, Takes, PublishesHole;
    forall i | 0 < i < |a| ensures Next(a[i - 1], a[i]) && !PublishesHole(a[i - 1], a[i]) {
      assert Next(b[i - 1], b[i]);
    }
  }

  // ---- any history ----

  datatype Command = BackupOf(roots: seq<Visit>, disk: Scanner.Disk) | FsckNow

  ghost predicate Sensible(c: Command, skip: set<Bytes>) {
    c.BackupOf? ==>
      && WalkSound(c.roots, skip) && RootsFit(c.roots, skip) && Scanner.Consistent(Walks.Visits(c.roots, skip))
      && SizesMatch(Walks.Visits(c.roots, skip), c.disk)
  }

  // What every run leaves behind, whether it ends well or not: stored bytes
  // that fit their names, and a newest index that can be laid out.
  ghost predicate Sane(store: Store, v: IndexVal, hash: Bytes -> Hash) {
    ContentAddressed(store, hash) && Restorable(v.entries)
  }

  lemma FsckKeepsSane(store0: Store, v: IndexVal, store: Store, w: IndexVal, pass: int, forever: int,
                      hash: Bytes -> Hash)
    requires Sane(store0, v, hash) && forall k :: k in store ==> k in store0 && store[k] == store0[k]
    requires w == v || FsckPublished(v, store0, w, store, pass, forever)
    ensures Sane(store, w, hash)
  {
    hide Restorable;
    if w != v {
      FewerFilesAreRestorable(v.entries, w.entries.files);
      assert w.entries == v.entries.(files := w.entries.files);
    }
  }

  method RunCommand(remote: Remote, dir: WorkDir, c: Command, skip: set<Bytes>, hash: Bytes -> Hash)
    requires remote.Valid() && remote.Here().session.Idle? && Sensible(c, skip)
    requires Sane(remote.store, Current(remote.Here().versions), hash)
    modifies remote, dir
    ensures remote.Valid() && old(remote.trace) <= remote.trace && remote.Here().session.Idle?
    ensures Sane(remote.store, Current(remote.Here().versions), hash)
  {
    hide WalkSound, RootsFit, Scanner.Consistent, Walks.Visits, SizesMatch, ContentAddressed, RecordsScan, Newest,
      Current, Restorable, Behaviour, SavedAs, FsckPublished, PassWasComplete;
    ghost var v, store0 := Current(remote.Here().versions), remote.store;
    match c
    case BackupOf(roots, disk) =>
      var ok, stats;
      ghost var built, digest;
      ok, stats, built, digest := BackupFiles(remote, dir, roots, skip, disk, hash);
      ghost var e := Current(remote.Here().versions).entries;
      if RecordsScan(e, Walks.Visits(roots, skip), skip, v.entries.files, disk, hash) {
        BackupIsRestorable(roots, skip, e, v.entries.files, disk, hash);
      }
    case FsckNow =>
      var r;
      ghost var pass, forever, after, digest;
      r, pass, forever, after, digest := FsckRemote(remote, dir);
      FsckKeepsSane(store0, v, remote.store, Current(remote.Here().versions), pass, forever, hash);
  }

  // Any number of backups and fscks, in any order and ending in any way, then
  // a download and a link. calls is how many calls have failed before those.
  method HistoryThenRestore(remote: Remote, dir: WorkDir, target: Target, commands: seq<Command>, skip: set<Bytes>,
                            hash: Bytes -> Hash) returns (r: Outcome, ghost lost: nat)
    requires remote.Valid() && remote.Here().session.Idle? && target.tree == map[]
    requires Sane(remote.store, Current(remote.Here().versions), hash)
    requires forall c :: c in commands ==> Sensible(c, skip)
    modifies remote, dir, target
    ensures remote.Valid() && old(remote.trace) <= remote.trace
    ensures Run(remote.trace) && r == Done ==>
      Restored(target.tree, target.chunks, Current(remote.Here().versions).entries, hash)
    ensures Run(remote.trace) && (r == Refused || r == Escaped) ==> remote.Here().versions.Keys == {}
    ensures lost <= Faults(remote, dir, target)
    ensures Faults(remote, dir, target) == lost ==> r != Faulty
  {
    hide Sane, Sensible, Newest, Current, Run, Restorable, Restored, Shaped, HasAttributes, Behaviour, SavedAs,
      ContentAddressed;
    assert forall i :: 0 <= i < |commands| ==> commands[i] in commands;
    for i := 0 to |commands|
      invariant remote.Valid() && remote.Here().session.Idle? && old(remote.trace) <= remote.trace
      invariant Sane(remote.store, Current(remote.Here().versions), hash)
      invariant target.tree == map[]
    {
      RunCommand(remote, dir, commands[i], skip, hash);
    }
    lost := Faults(remote, dir, target);
    SaneIsRestorable(remote.store, Current(remote.Here().versions), hash);
    ghost var trace, versions := remote.trace, remote.Here().versions;
    r := DownloadThenLink(remote, dir, target, hash);
    if Run(remote.trace) {
      RunPrefix(trace, remote.trace);
    }
  }

  lemma SaneIsRestorable(store: Store, v: IndexVal, hash: Bytes -> Hash)
    requires Sane(store, v, hash)
    ensures WellPathed(v.entries) && Shaped(v.entries) && ContentAddressed(store, hash)
  {
    hide ContentAddressed, WellPathed, Shaped;
  }

  // An empty bucket, strays that fit their names included, is sane.
  lemma EmptyIsSane(store: Store, hash: Bytes -> Hash)
    requires ContentAddressed(store, hash)
    ensures Sane(store, EMPTY_INDEX, hash)
  {
  }
}
