// verify.go: the local tree checked against the newest index and the store.
module Verify {
  import opened Utf8
  import opened Wrappers
  import opened ChunkKeys
  import opened Archive
  import opened Protocol
  import opened ProtocolSafety
  import opened Remotes
  import opened VersionList
  import opened Indexes
  import opened UploadPlan
  import opened Scans
  import opened Walks
  import opened Scanner
  import opened Backups

  // Does verifySingleFile give up on n?
  predicate Fails(n: Node, skip: set<Bytes>) {
    n.broken && (n.DirNode? || n.LinkNode? || n.FileNode?) && !(n.DirNode? && n.name in skip)
  }

  predicate Matches(path: Path, n: Node, skip: set<Bytes>, index: Entries, stored: set<Key>, disk: Disk,
                    hash: Bytes -> Hash) {
    match n
    case DirNode(name, _, mode, _, _) => name in skip || (path in index.dirs && index.dirs[path] == DirInfo(mode))
    case LinkNode(_, _, target) => path in index.links && index.links[path] == LinkInfo(target)
    case FileNode(_, _, mode, modTime, size) =>
      path in disk &&
      var f := FileInfo(size, mode, modTime, hash(disk[path]));
      path in index.files && index.files[path] == f && KeyOf(f) in stored
    case OtherNode(_, _) => true
    case AbsentNode(_, _) => true
  }

  // verifySingleFile: the list of unmatched paths grows exactly if the entry
  // does not match.
  method VerifySingleFile(path: Path, n: Node, skip: set<Bytes>, index: Entries, chunks: ChunksMap, disk: Disk,
                          hash: Bytes -> Hash, unmatched: seq<Path>) returns (r: Result<seq<Path>, ()>)
    ensures r.Err? <==> Fails(n, skip)
    ensures r.Ok? ==> unmatched <= r.value
    ensures r.Ok? ==> (r.value == unmatched <==> Matches(path, n, skip, index, chunks.Keys, disk, hash))
  {
    var uf := unmatched;
    match n
    case DirNode(name, broken, mode, _, _) =>
      if name in skip {
        return Ok(uf);
      }
      if broken {
        return Err(());
      }
      if path !in index.dirs {
        uf := uf + [path];
      } else if index.dirs[path] != DirInfo(mode) {
        uf := uf + [path];
      }
      return Ok(uf);
    case LinkNode(_, broken, target) =>
      if broken {
        return Err(());
      }
      if path !in index.links {
        uf := uf + [path];
      } else if index.links[path] != LinkInfo(target) {
        uf := uf + [path];
      }
      return Ok(uf);
    case FileNode(_, broken, mode, modTime, size) =>
      if broken {
        return Err(());
      }
      if path !in disk {
        return Ok(uf + [path]);
      }
      var f := FileInfo(size, mode, modTime, hash(disk[path]));
      if KeyOf(f) !in chunks {
        uf := uf + [path];
      }
      if path !in index.files {
        uf := uf + [path];
      } else if index.files[path] != f {
        uf := uf + [path];
      }
      return Ok(uf);
    case OtherNode(_, _) =>
      return Ok(uf);
    case AbsentNode(_, _) =>
      return Ok(uf);
  }

  // No call on this walk fails.
  ghost predicate ErrorFree(roots: seq<(Path, Node)>, skip: set<Bytes>) {
    && (forall v :: v in Visits(roots, skip) ==> !Fails(v.1, skip))
    && (forall r :: r in roots ==> !Stops(r.1, skip))
  }

  ghost predicate AllMatch(visits: seq<(Path, Node)>, skip: set<Bytes>, index: Entries, stored: set<Key>, disk: Disk,
                           hash: Bytes -> Hash) {
    forall v :: v in visits ==> Matches(v.0, v.1, skip, index, stored, disk, hash)
  }

  // Every entry the walks meet is in the index, equal, and a file can be read
  // and has its chunk stored.
  ghost predicate AnswersFor(index: Entries, stored: set<Key>, roots: seq<(Path, Node)>, skip: set<Bytes>, disk: Disk,
                             hash: Bytes -> Hash) {
    && (forall v :: MetBelow(roots, skip, v) && v.1.FileNode? ==>
      && v.0 in disk && ChunkKey(v.1.size, hash(disk[v.0])) in stored
      && v.0 in index.files
      && index.files[v.0] == FileInfo(v.1.size, v.1.mode, v.1.modTime, hash(disk[v.0])))
    && (forall v :: MetBelow(roots, skip, v) && v.1.LinkNode? ==>
      v.0 in index.links && index.links[v.0] == LinkInfo(v.1.target))
    && (forall v :: MetBelow(roots, skip, v) && v.1.DirNode? && v.1.name !in skip ==>
      v.0 in index.dirs && index.dirs[v.0] == DirInfo(v.1.mode))
  }

  lemma AnswersIff(index: Entries, stored: set<Key>, roots: seq<(Path, Node)>, skip: set<Bytes>, disk: Disk,
                   hash: Bytes -> Hash)
    ensures AllMatch(Visits(roots, skip), skip, index, stored, disk, hash) <==>
      AnswersFor(index, stored, roots, skip, disk, hash)
  {
    hide Visits, MetBelow;
    forall v ensures v in Visits(roots, skip) <==> MetBelow(roots, skip, v) {
      VisitsIff(roots, skip, v);
    }
  }

  // Every walk ends well, and what it meets can be stat'ed or read as a link.
  ghost predicate Walkable(roots: seq<(Path, Node)>, skip: set<Bytes>) {
    && (forall r, at :: r in roots ==> !FailsAt(r.1, at, skip))
    && (forall v :: MetBelow(roots, skip, v) && v.1.broken ==> v.1.OtherNode? || (v.1.DirNode? && v.1.name in skip))
  }

  lemma WalkableIff(roots: seq<(Path, Node)>, skip: set<Bytes>)
    ensures ErrorFree(roots, skip) <==> Walkable(roots, skip)
  {
    hide Visits, MetBelow, Stops, FailsAt;
    forall v ensures v in Visits(roots, skip) <==> MetBelow(roots, skip, v) {
      VisitsIff(roots, skip, v);
    }
    forall v | MetBelow(roots, skip, v) ensures !v.1.AbsentNode? {
      MetIsThere(roots, skip, v);
    }
    forall r | r in roots ensures Stops(r.1, skip) <==> exists at :: FailsAt(r.1, at, skip) {
      StopsIff(r.1, skip);
    }
  }

  // The walk of one configured path.
  method VerifyRoot(root: (Path, Node), skip: set<Bytes>, index: Entries, chunks: ChunksMap, disk: Disk,
                    hash: Bytes -> Hash, unmatched: seq<Path>) returns (r: Result<seq<Path>, ()>)
    ensures r.Ok? <==> ErrorFree([root], skip)
    ensures r.Ok? ==> unmatched <= r.value
    ensures r.Ok? ==> (r.value == unmatched <==> AllMatch(Visits([root], skip), skip, index, chunks.Keys, disk, hash))
  {
    hide Walk, Matches, Fails;
    var visits := Walk(root.1, root.0, skip);
    assert Visits([root], skip) == visits;
    var uf := unmatched;
    assert forall j :: 0 <= j < |visits| ==> visits[j] in visits;
    for i := 0 to |visits|
      invariant unmatched <= uf
      invariant forall j :: 0 <= j < i ==> !Fails(visits[j].1, skip)
      invariant uf == unmatched <==> forall j :: 0 <= j < i ==>
        Matches(visits[j].0, visits[j].1, skip, index, chunks.Keys, disk, hash)
    {
      var one := VerifySingleFile(visits[i].0, visits[i].1, skip, index, chunks, disk, hash, uf);
      if one.Err? {
        return Err(());
      }
      uf := one.value;
    }
    if Stops(root.1, skip) {
      return Err(());
    }
    return Ok(uf);
  }

  lemma {:induction false} VisitsSplit(a: seq<(Path, Node)>, b: seq<(Path, Node)>, skip: set<Bytes>)
    ensures Visits(a + b, skip) == Visits(a, skip) + Visits(b, skip)
  {
    hide Walk;
    if a == [] {
      assert a + b == b;
    } else {
      assert (a + b)[1..] == a[1..] + b;
      VisitsSplit(a[1..], b, skip);
    }
  }

  // The walks of verifyFiles.
  method VerifyRoots(roots: seq<(Path, Node)>, skip: set<Bytes>, index: Entries, chunks: ChunksMap, disk: Disk,
                     hash: Bytes -> Hash) returns (r: Result<seq<Path>, ()>)
    ensures r.Ok? <==> ErrorFree(roots, skip)
    ensures r.Ok? ==> (r.value == [] <==> AllMatch(Visits(roots, skip), skip, index, chunks.Keys, disk, hash))
    ensures r.Ok? <==> Walkable(roots, skip)
    ensures r.Ok? ==> (r.value == [] <==> AnswersFor(index, chunks.Keys, roots, skip, disk, hash))
  {
    hide Walk, Matches, Fails, Visits, Walkable, AnswersFor;
    WalkableIff(roots, skip);
    AnswersIff(index, chunks.Keys, roots, skip, disk, hash);
    var uf := [];
    assert roots[..0] == [];
    NoVisits(skip);
    for i := 0 to |roots|
      invariant ErrorFree(roots[..i], skip)
      invariant uf == [] <==> AllMatch(Visits(roots[..i], skip), skip, index, chunks.Keys, disk, hash)
    {
      var one := VerifyRoot(roots[i], skip, index, chunks, disk, hash, uf);
      assert roots[..i + 1] == roots[..i] + [roots[i]];
      VisitsSplit(roots[..i], [roots[i]], skip);
      assert roots == roots[..i + 1] + roots[i + 1..];
      VisitsSplit(roots[..i + 1], roots[i + 1..], skip);
      if one.Err? {
        return Err(());
      }
      uf := one.value;
    }
    assert roots[..|roots|] == roots;
    return Ok(uf);
  }

  lemma NoVisits(skip: set<Bytes>)
    ensures Visits([], skip) == []
  {
  }

  datatype VerifyResult = Verified | Unmatched(paths: seq<Path>) | Aborted

  // verifyFiles
  method VerifyFiles(remote: Remote, dir: WorkDir, roots: seq<(Path, Node)>, skip: set<Bytes>, disk: Disk,
                     hash: Bytes -> Hash)
    returns (r: VerifyResult)
    requires remote.Valid()
    modifies remote`versions, remote`trace, remote`faults, dir`faults
    ensures remote.Valid() && old(remote.trace) <= remote.trace
    ensures remote.Here() == old(remote.Here()).(versions := remote.Here().versions)
    ensures Current(remote.Here().versions) == Current(old(remote.Here()).versions)
    ensures !r.Aborted? ==> ErrorFree(roots, skip) && (r.Verified? <==>
      AllMatch(Visits(roots, skip), skip, Current(remote.Here().versions).entries, remote.store.Keys, disk, hash))
    ensures !r.Aborted? ==> Walkable(roots, skip) && (r.Verified? <==>
      AnswersFor(Current(remote.Here().versions).entries, remote.store.Keys, roots, skip, disk, hash))
    // where no call fails there is a verdict, given an index and a clean walk
    ensures old(remote.faults) <= remote.faults && old(dir.faults) <= dir.faults
    ensures remote.faults == old(remote.faults) && dir.faults == old(dir.faults) ==>
      (r.Aborted? <==> old(remote.Here()).versions.Keys == {} || !ErrorFree(roots, skip))
  {
    hide Walkable, AnswersFor, Newest, Current, Behaviour, ErrorFree, AllMatch, Visits, ChunkNames, NewestThirty;
    var ri := new Index();
    var loaded := ri.LoadRemote(remote, dir);
    SweepKeepsNewest(old(remote.Here()).versions, remote.Here().versions);
    if loaded.Err? {
      return Aborted;
    }
    var scan := ScanRemoteChunksMap(remote);
    if scan.Err? {
      return Aborted;
    }
    var uf := VerifyRoots(roots, skip, ri.entries, scan.value, disk, hash);
    if uf.Err? {
      return Aborted;
    }
    return if uf.value == [] then Verified else Unmatched(uf.value);
  }

  // ---- verify agrees with scan ----

  // index has every entry of a scan, equal, and all its chunks are stored.
  ghost predicate Covers(index: Entries, scan: Entries, stored: set<Key>) {
    && (forall p :: p in scan.dirs ==> p in index.dirs && index.dirs[p] == scan.dirs[p])
    && (forall p :: p in scan.links ==> p in index.links && index.links[p] == scan.links[p])
    && (forall p :: p in scan.files ==>
      p in index.files && index.files[p] == scan.files[p] && KeyOf(scan.files[p]) in stored)
  }

  // Every entry can be stat'ed and every file read.
  ghost predicate Sound(visits: seq<(Path, Node)>, disk: Disk) {
    forall v :: v in visits ==> !v.1.broken && (v.1.FileNode? ==> v.0 in disk)
  }

  // On an error-free walk, verify is silent exactly if the index covers what
  // a scan with no last index would record.
  lemma VerifyAgreesWithScan(visits: seq<(Path, Node)>, skip: set<Bytes>, scanned: Entries, index: Entries,
                             stored: set<Key>, disk: Disk, hash: Bytes -> Hash)
    requires Sound(visits, disk)
    requires ScanOf(visits, skip, scanned)
    ensures AllMatch(visits, skip, index, stored, disk, hash) <==>
      Covers(index, scanned.(files := Hashed(scanned.files, map[], disk, hash)), stored)
  {
    hide Matches, Covers, ScanOf;
    if Covers(index, scanned.(files := Hashed(scanned.files, map[], disk, hash)), stored) {
      CoveredIsSilent(visits, skip, scanned, index, stored, disk, hash);
    }
    if AllMatch(visits, skip, index, stored, disk, hash) {
      SilentIsCovered(visits, skip, scanned, index, stored, disk, hash);
    }
  }

  lemma CoveredIsSilent(visits: seq<(Path, Node)>, skip: set<Bytes>, scanned: Entries, index: Entries,
                        stored: set<Key>, disk: Disk, hash: Bytes -> Hash)
    requires Sound(visits, disk)
    requires ScanOf(visits, skip, scanned)
    requires Covers(index, scanned.(files := Hashed(scanned.files, map[], disk, hash)), stored)
    ensures AllMatch(visits, skip, index, stored, disk, hash)
  {
  }

  lemma SilentIsCovered(visits: seq<(Path, Node)>, skip: set<Bytes>, scanned: Entries, index: Entries,
                        stored: set<Key>, disk: Disk, hash: Bytes -> Hash)
    requires ScanOf(visits, skip, scanned)
    requires AllMatch(visits, skip, index, stored, disk, hash)
    ensures Covers(index, scanned.(files := Hashed(scanned.files, map[], disk, hash)), stored)
  {
  }

  // So after a completed backup of a tree that has not changed since, verify
  // is silent, even where hashes were reused.
  lemma VerifySilentAfterBackup(visits: seq<(Path, Node)>, skip: set<Bytes>, scanned: Entries, last: Files,
                                index: Entries, stored: set<Key>, disk: Disk, hash: Bytes -> Hash)
    requires Sound(visits, disk)
    requires ScanOf(visits, skip, scanned)
    requires ReuseSound(last, disk, hash, scanned.files)
    requires index == scanned.(files := Hashed(scanned.files, last, disk, hash))
    requires Chunks(index.files) <= stored
    ensures AllMatch(visits, skip, index, stored, disk, hash)
  {
  }

  // A backup, then a verify of the same tree: never a mismatch where the
  // backup was published, and where no call fails the verdict is that all is
  // well.
  method BackupThenVerify(remote: Remote, dir: WorkDir, roots: seq<(Path, Node)>, skip: set<Bytes>, disk: Disk,
                          hash: Bytes -> Hash)
    returns (ok: bool, ghost built: IndexVal, ghost digest: Digest, r: VerifyResult)
    requires remote.Valid() && remote.Here().session.Idle?
    requires Consistent(Visits(roots, skip)) && Sound(Visits(roots, skip), disk)
    modifies remote, dir
    ensures remote.Valid()
    ensures ok && Run(remote.trace)
      && Publishes(old(remote.Here()).versions, old(remote.NewestDigest()), digest, built)
      && ReuseFits(Visits(roots, skip), skip, Current(old(remote.Here()).versions).entries.files, disk, hash)
      ==> r.Verified? || r.Aborted?
    ensures remote.faults == old(remote.faults) && dir.faults == old(dir.faults) && ErrorFree(roots, skip) ==>
      ok && !r.Aborted? && digest != NoDigest
  {
    hide Remote.NewestDigest, IsPublished, Newest, Current, Behaviour, Run, ErrorFree, AllMatch, Visits, Consistent,
      Sound, RecordsScan, ReuseFits,
      SizesMatch, ContentAddressed, SavedAs, PublishedSafe, GraceKept;
    ghost var visits := Visits(roots, skip);
    ghost var last := Current(remote.Here().versions).entries.files;
    var stats;
    ok, stats, built, digest := BackupFiles(remote, dir, roots, skip, disk, hash);
    r := Aborted;
    if !ok {
      return;
    }
    ghost var published := IsPublished(remote.Here().versions, built);
    PublishedIsCurrent(remote.Here().versions, built);
    r := VerifyFiles(remote, dir, roots, skip, disk, hash);
    if Run(remote.trace) && ReuseFits(visits, skip, last, disk, hash) && published {
      AlwaysSafe(remote);
      RecordedMatches(visits, skip, last, remote.Here(), disk, hash);
    }
  }

  lemma RecordedMatches(visits: seq<(Path, Node)>, skip: set<Bytes>, last: Files, s: State, disk: Disk,
                        hash: Bytes -> Hash)
    requires RecordsScan(Current(s.versions).entries, visits, skip, last, disk, hash) && PublishedSafe(s)
    requires Sound(visits, disk) && ReuseFits(visits, skip, last, disk, hash)
    ensures AllMatch(visits, skip, Current(s.versions).entries, s.store.Keys, disk, hash)
  {
    hide Newest, Current, Sound, AllMatch, ScanOf, Hashed, ReuseSound;
    var e := Current(s.versions).entries;
    var scanned :| ScanOf(visits, skip, scanned) && e == scanned.(files := Hashed(scanned.files, last, disk, hash));
    VerifySilentAfterBackup(visits, skip, scanned, last, e, s.store.Keys, disk, hash);
  }
}
