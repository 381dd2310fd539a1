// scanner.go: the local tree, scanned into an index.
module Scanner {
  import opened Utf8
  import opened Wrappers
  import opened ChunkKeys
  import opened Archive
  import opened Walks

  // The contents of the files that can be opened.
  type Disk = map<Path, Bytes>

  // ---- scan ----

  // Does visit v of the walk put an entry at p?
  predicate Records(v: (Path, Node), p: Path, skip: set<Bytes>) {
    v.0 == p && !v.1.broken && !(v.1.DirNode? && v.1.name in skip)
  }

  // Visit v has its entry, and the right one.
  predicate Entered(e: Entries, v: (Path, Node)) {
    && (v.1.DirNode? ==> v.0 in e.dirs && e.dirs[v.0] == DirInfo(v.1.mode))
    && (v.1.LinkNode? ==> v.0 in e.links && e.links[v.0] == LinkInfo(v.1.target))
    && (v.1.FileNode? ==> v.0 in e.files && e.files[v.0] == FileInfo(v.1.size, v.1.mode, v.1.modTime, ZERO_HASH))
  }

  // A sound directory that is not skipped, a sound link or a sound file.
  predicate Taken(n: Node, skip: set<Bytes>) {
    !n.broken && (n.LinkNode? || n.FileNode? || (n.DirNode? && n.name !in skip))
  }

  ghost predicate SameBut<V>(a: map<Path, V>, b: map<Path, V>, p: Path) {
    forall q :: q != p ==> (q in a <==> q in b) && (q in a && q in b ==> a[q] == b[q])
  }

  // r is e with the entry of visit v, if it is one to take: in the map of its
  // kind, at its path, and nowhere else.
  ghost predicate Adds(e: Entries, v: (Path, Node), skip: set<Bytes>, r: Entries) {
    && (Taken(v.1, skip) ==> Entered(r, v))
    && (!Taken(v.1, skip) ==> r == e)
    && (if v.1.DirNode? then SameBut(r.dirs, e.dirs, v.0) else r.dirs == e.dirs)
    && (if v.1.LinkNode? then SameBut(r.links, e.links, v.0) else r.links == e.links)
    && (if v.1.FileNode? then SameBut(r.files, e.files, v.0) else r.files == e.files)
  }

  // scanSingleFile; an error there is never returned, only SkipDir.
  method ScanSingleFile(entries: Entries, path: Path, n: Node, skip: set<Bytes>) returns (r: Entries)
    ensures Adds(entries, (path, n), skip, r)
  {
    match n
    case DirNode(name, broken, mode, _, _) =>
      if name in skip || broken {
        return entries;
      }
      return entries.(dirs := entries.dirs[path := DirInfo(mode)]);
    case LinkNode(_, broken, target) =>
      if broken {
        return entries;
      }
      return entries.(links := entries.links[path := LinkInfo(target)]);
    case FileNode(_, broken, mode, modTime, size) =>
      if broken {
        return entries;
      }
      return entries.(files := entries.files[path := FileInfo(size, mode, modTime, ZERO_HASH)]);
    case OtherNode(_, _) =>
      return entries;
    case AbsentNode(_, _) =>
      return entries;
  }

  predicate Recorded(visits: seq<(Path, Node)>, p: Path, skip: set<Bytes>, kind: Node -> bool) {
    exists v | v in visits :: Records(v, p, skip) && kind(v.1)
  }

  predicate IsDir(n: Node) { n.DirNode? }
  predicate IsLink(n: Node) { n.LinkNode? }
  predicate IsFile(n: Node) { n.FileNode? }

  // What a scan records before hashing: an entry for every sound visit, and
  // nothing else.
  ghost predicate ScanOf(visits: seq<(Path, Node)>, skip: set<Bytes>, e: Entries) {
    && (forall v :: v in visits && Records(v, v.0, skip) ==> Entered(e, v))
    && (forall p :: p in e.dirs ==> Recorded(visits, p, skip, IsDir))
    && (forall p :: p in e.links ==> Recorded(visits, p, skip, IsLink))
    && (forall p :: p in e.files ==> Recorded(visits, p, skip, IsFile))
  }

  // The walks are over one file system: a path is met as one thing.
  predicate Consistent(visits: seq<(Path, Node)>) {
    forall v, w :: v in visits && w in visits && v.0 == w.0 ==> v.1 == w.1
  }

  lemma RecordedLater(visits: seq<(Path, Node)>, v: (Path, Node), p: Path, skip: set<Bytes>, kind: Node -> bool)
    requires Recorded(visits, p, skip, kind) || (Records(v, p, skip) && kind(v.1))
    ensures Recorded(visits + [v], p, skip, kind)
  {
  }

  lemma ScanOfNext(visits: seq<(Path, Node)>, skip: set<Bytes>, e: Entries, v: (Path, Node), e': Entries)
    requires ScanOf(visits, skip, e) && Consistent(visits + [v]) && Adds(e, v, skip, e')
    ensures ScanOf(visits + [v], skip, e')
  {
    hide Recorded;
    forall w | w in visits + [v] && Records(w, w.0, skip) ensures Entered(e', w) {
      assert w in visits || w == v;
      assert v in visits + [v];
    }
    forall p | p in e'.dirs ensures Recorded(visits + [v], p, skip, IsDir) {
      RecordedLater(visits, v, p, skip, IsDir);
    }
    forall p | p in e'.links ensures Recorded(visits + [v], p, skip, IsLink) {
      RecordedLater(visits, v, p, skip, IsLink);
    }
    forall p | p in e'.files ensures Recorded(visits + [v], p, skip, IsFile) {
      RecordedLater(visits, v, p, skip, IsFile);
    }
  }

  // The entries of e are those of what the walks meet: every sound file and
  // link, and every sound directory that is not skipped, at any depth.
  ghost predicate HoldsMet(e: Entries, roots: seq<(Path, Node)>, skip: set<Bytes>) {
    && (forall v :: MetBelow(roots, skip, v) && !v.1.broken && v.1.FileNode? ==>
        v.0 in e.files && e.files[v.0] == FileInfo(v.1.size, v.1.mode, v.1.modTime, ZERO_HASH))
    && (forall v :: MetBelow(roots, skip, v) && !v.1.broken && v.1.LinkNode? ==>
        v.0 in e.links && e.links[v.0] == LinkInfo(v.1.target))
    && (forall v :: MetBelow(roots, skip, v) && !v.1.broken && v.1.DirNode? && v.1.name !in skip ==>
        v.0 in e.dirs && e.dirs[v.0] == DirInfo(v.1.mode))
    && (forall p :: p in e.files ==>
        exists v :: MetBelow(roots, skip, v) && v.0 == p && !v.1.broken && v.1.FileNode?)
    && (forall p :: p in e.links ==>
        exists v :: MetBelow(roots, skip, v) && v.0 == p && !v.1.broken && v.1.LinkNode?)
    && (forall p :: p in e.dirs ==>
        exists v :: MetBelow(roots, skip, v) && v.0 == p && !v.1.broken && v.1.DirNode? && v.1.name !in skip)
  }

  lemma ScanHoldsMet(roots: seq<(Path, Node)>, skip: set<Bytes>, e: Entries)
    requires ScanOf(Visits(roots, skip), skip, e)
    ensures HoldsMet(e, roots, skip)
  {
    hide Visits, MetBelow;
    forall v ensures v in Visits(roots, skip) <==> MetBelow(roots, skip, v) {
      VisitsIff(roots, skip, v);
    }
  }

  // So where a walk ends well, a sound file anywhere below entered directories
  // is recorded.
  lemma SoundFileIsRecorded(roots: seq<(Path, Node)>, skip: set<Bytes>, e: Entries, r: (Path, Node), at: seq<nat>)
    requires HoldsMet(e, roots, skip) && r in roots && !Stops(r.1, skip) && Reaches(r.1, at, skip)
    requires NodeAt(r.1, at, skip).FileNode? && !NodeAt(r.1, at, skip).broken
    ensures PathAt(r.1, r.0, at, skip) in e.files
  {
    hide Stops;
    NothingMissed(r.1, r.0, skip, at);
    assert MetBelow(roots, skip, At(r.1, r.0, at, skip));
  }

  // The walking half of GenerateLocal.
  method ScanRoots(roots: seq<(Path, Node)>, skip: set<Bytes>) returns (entries: Entries)
    requires Consistent(Visits(roots, skip))
    ensures ScanOf(Visits(roots, skip), skip, entries)
    ensures HoldsMet(entries, roots, skip)
  {
    hide ScanOf, Adds, Walk, HoldsMet;
    entries := NO_ENTRIES;
    var visits := Visits(roots, skip);
    NothingScanned(skip);
    for i := 0 to |visits|
      invariant ScanOf(visits[..i], skip, entries)
    {
      assert visits[..i + 1] == visits[..i] + [visits[i]];
      var next := ScanSingleFile(entries, visits[i].0, visits[i].1, skip);
      ScanOfNext(visits[..i], skip, entries, visits[i], next);
      entries := next;
    }
    assert visits[..|visits|] == visits;
    ScanHoldsMet(roots, skip, entries);
  }

  lemma NothingScanned(skip: set<Bytes>)
    ensures ScanOf([], skip, NO_ENTRIES)
  {
  }

  // ---- hash ----

  // May the hash of the last backup stand in for reading the file again?
  predicate Reusable(fi: FileInfo, last: Files, p: Path) {
    p in last && last[p].size == fi.size && last[p].modTime == fi.modTime
  }

  // The second half of GenerateLocal: a hash for every file, reused or
  // computed; a file that cannot be read leaves the index. hash is chunkHash,
  // an opaque function of the contents.
  method HashFiles(scanned: Files, last: Files, disk: Disk, hash: Bytes -> Hash) returns (files: Files)
    ensures files == Hashed(scanned, last, disk, hash)
    // the old hash if path, size and time are the same, else that of the bytes,
    // if they can be read; nothing else of an entry changes
    ensures files.Keys <= scanned.Keys
    ensures forall p | p in scanned ::
      var same := p in last && last[p].size == scanned[p].size && last[p].modTime == scanned[p].modTime;
      && (p in files <==> same || p in disk)
      && (p in files ==> files[p] == scanned[p].(hash := if same then last[p].hash else hash(disk[p])))
  {
    files := scanned;
    var todo := scanned.Keys;
    while todo != {}
      invariant todo <= files.Keys <= scanned.Keys
      invariant forall p :: p in todo ==> files[p] == scanned[p]
      invariant forall p :: p in scanned.Keys - todo ==>
        if p in Hashed(scanned, last, disk, hash) then p in files && files[p] == Hashed(scanned, last, disk, hash)[p]
          else p !in files
      decreases todo
    {
      ghost var some := ElementOf(todo);
      var fp :| fp in todo;
      todo := todo - {fp};
      var fi := files[fp];
      if Reusable(fi, last, fp) {
        files := files[fp := fi.(hash := last[fp].hash)];
      } else if fp in disk {
        files := files[fp := fi.(hash := hash(disk[fp]))];
      } else {
        files := files - {fp};
      }
    }
  }

  function Hashed(scanned: Files, last: Files, disk: Disk, hash: Bytes -> Hash): Files {
    map p | p in scanned && (Reusable(scanned[p], last, p) || p in disk) ::
      scanned[p].(hash := if Reusable(scanned[p], last, p) then last[p].hash else hash(disk[p]))
  }

  // Only freshly hashed files are ever uploaded: a reused hash names a chunk
  // of the last index.
  lemma UploadsAreFresh(scanned: Files, last: Files, disk: Disk, hash: Bytes -> Hash, p: Path)
    requires p in Hashed(scanned, last, disk, hash)
    requires KeyOf(Hashed(scanned, last, disk, hash)[p]) !in Chunks(last)
    ensures p in disk && Hashed(scanned, last, disk, hash)[p].hash == hash(disk[p])
  {
  }

  // Equal path, size and time mean equal contents, as far as hashes can tell.
  ghost predicate ReuseSound(last: Files, disk: Disk, hash: Bytes -> Hash, scanned: Files) {
    forall p :: p in scanned && Reusable(scanned[p], last, p) ==> p in disk && last[p].hash == hash(disk[p])
  }

  ghost predicate ReuseFits(visits: seq<(Path, Node)>, skip: set<Bytes>, last: Files, disk: Disk, hash: Bytes -> Hash) {
    forall scanned :: ScanOf(visits, skip, scanned) ==> ReuseSound(last, disk, hash, scanned.files)
  }

  // Then reusing hashes changes nothing.
  lemma ReuseIsInvisible(scanned: Files, last: Files, disk: Disk, hash: Bytes -> Hash)
    requires ReuseSound(last, disk, hash, scanned)
    ensures Hashed(scanned, last, disk, hash) == Hashed(scanned, map[], disk, hash)
  {
  }

  // ---- what a backup holds of a file ----

  // Same path, size and time as in the last index.
  ghost predicate LooksUnchanged(v: (Path, Node), last: Files)
    requires v.1.FileNode?
  {
    v.0 in last && last[v.0].size == v.1.size && last[v.0].modTime == v.1.modTime
  }

  // Of every sound file the walks meet: its entry, with the old hash exactly
  // if it looks unchanged, else with that of its bytes, if they can be read.
  ghost predicate HoldsFiles(files: Files, roots: seq<(Path, Node)>, skip: set<Bytes>, last: Files, disk: Disk,
                             hash: Bytes -> Hash) {
    && (forall v :: MetBelow(roots, skip, v) && !v.1.broken && v.1.FileNode? ==>
        && (v.0 in files <==> LooksUnchanged(v, last) || v.0 in disk)
        && (v.0 in files ==> files[v.0] == FileInfo(v.1.size, v.1.mode, v.1.modTime,
          if LooksUnchanged(v, last) then last[v.0].hash else hash(disk[v.0]))))
    && (forall p :: p in files ==>
        exists v :: MetBelow(roots, skip, v) && v.0 == p && !v.1.broken && v.1.FileNode?)
  }

  lemma HashedHoldsFiles(e: Entries, roots: seq<(Path, Node)>, skip: set<Bytes>, last: Files, disk: Disk,
                         hash: Bytes -> Hash)
    requires HoldsMet(e, roots, skip)
    ensures HoldsFiles(Hashed(e.files, last, disk, hash), roots, skip, last, disk, hash)
  {
    hide MetBelow;
  }
}
