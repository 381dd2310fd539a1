// index.go: the index a process works on, its place in the bucket and in the
// local cache.
module Indexes {
  import opened Utf8
  import opened Wrappers
  import opened ChunkKeys
  import opened Archive
  import opened IndexDoc
  import opened Protocol
  import opened ProtocolSafety
  import opened Remotes
  import opened DeletionPass
  import opened VersionList
  import opened KeyMaps

  datatype LoadError = NotFound | CallFailed

  // config.WorkingDir, where the last published index is cached.
  class WorkDir {
    var cache: Option<Doc>

    // How many operations have failed.
    ghost var faults: nat

    constructor (cache: Option<Doc>)
      ensures this.cache == cache
    {
      this.cache := cache;
      faults := 0;
    }

    // Room for a temporary file.
    method Prepare() returns (ok: bool)
      modifies this`faults
      ensures faults == if ok then old(faults) else old(faults) + 1
    {
      ok := *;
      faults := if ok then faults else faults + 1;
    }

    method Read() returns (r: Result<Doc, ()>)
      requires cache.Some?
      modifies this`faults
      ensures r.Ok? ==> r.value == cache.value
      ensures faults == if r.Ok? then old(faults) else old(faults) + 1
    {
      var ok := *;
      faults := if ok then faults else faults + 1;
      r := if ok then Ok(cache.value) else Err(());
    }

    // The rename of a new file over the cached one.
    method Replace(doc: Doc) returns (ok: bool)
      modifies this
      ensures cache == if ok then Some(doc) else old(cache)
      ensures faults == if ok then old(faults) else old(faults) + 1
    {
      ok := *;
      faults := if ok then faults else faults + 1;
      if ok {
        cache := Some(doc);
      }
    }

    // The digest of the cached index, none if it cannot be read.
    method MetaHash() returns (d: Digest)
      ensures d == NoDigest || (cache.Some? && d == Sha1(cache.value))
    {
      var readable := *;
      d := if readable && cache.Some? then Sha1(cache.value) else NoDigest;
    }

    // The digest of a temporary file just written, none if it cannot be read
    // back.
    method HashTemporary(doc: Doc) returns (d: Digest)
      modifies this`faults
      ensures d == NoDigest || d == Sha1(doc)
      ensures faults == if d == NoDigest then old(faults) + 1 else old(faults)
    {
      var readable := *;
      faults := if readable then faults else faults + 1;
      d := if readable then Sha1(doc) else NoDigest;
    }
  }

  // getLatestIndex
  method GetLatestIndex(remote: Remote) returns (r: Result<int, LoadError>)
    requires remote.Valid()
    modifies remote`versions, remote`trace, remote`faults
    ensures remote.Valid() && old(remote.trace) <= remote.trace && old(remote.faults) <= remote.faults
    ensures remote.Here() == old(remote.Here()).(versions := remote.Here().versions)
    ensures SweptFrom(old(remote.Here()).versions, remote.Here().versions)
    ensures remote.NewestDigest() == old(remote.NewestDigest())
    ensures r.Ok? ==> IsNewest(remote.Here().versions, r.value)
    ensures r.Err? && r.error.NotFound? ==> remote.Here().versions.Keys == {}
    // where no call fails, exactly the 30 newest versions are left
    ensures remote.faults == old(remote.faults) ==>
      (r.Err? ==> r.error.NotFound?) && NewestThirty(old(remote.Here()).versions, remote.Here().versions)
  {
    hide Newest, IndexChunks, Marshal, Current, NewestThirty, Outranked, Top;
    var list := remote.ListVersions();
    if list.Err? {
      return Err(CallFailed);
    }
    var sorted := SortDescending(list.value);
    ghost var before := remote.Here().versions;
    assert forall t :: t in before <==> t in sorted;
    if |sorted| > KEPT_VERSIONS {
      DeleteFrom(remote, sorted);
    }
    SweepKeepsNewest(before, remote.Here().versions);
    if remote.faults == old(remote.faults) {
      KeptIsNewestThirty(before, remote.Here().versions, sorted);
    }
    if |sorted| == 0 {
      return Err(NotFound);
    }
    return Ok(sorted[0]);
  }

  // The tail of a sorted list of versions; failures are only logged.
  method DeleteFrom(remote: Remote, sorted: seq<int>)
    requires remote.Valid() && Descending(sorted) && |sorted| > KEPT_VERSIONS
    requires forall t :: t in sorted ==> t in remote.Here().versions
    modifies remote`versions, remote`trace, remote`faults
    ensures remote.Valid() && old(remote.trace) <= remote.trace && old(remote.faults) <= remote.faults
    ensures remote.Here() == old(remote.Here()).(versions := remote.Here().versions)
    ensures SweptFrom(old(remote.Here()).versions, remote.Here().versions)
    ensures forall t :: t in remote.versions ==>
      t in old(remote.versions) && remote.versions[t] == old(remote.versions)[t]
    ensures forall j :: 0 <= j < KEPT_VERSIONS ==> sorted[j] in remote.Here().versions
    // where no delete fails, the whole tail is gone
    ensures remote.faults == old(remote.faults) ==>
      forall t :: t in sorted && t in remote.Here().versions ==> t in Top(sorted)
  {
    hide Newest, IndexChunks, Marshal, Current, Behaviour, Enabled, Apply, Outranked;
    assert forall j | 0 <= j < |sorted| :: sorted[j] in sorted;
    for i := KEPT_VERSIONS to |sorted|
      invariant remote.Valid() && old(remote.trace) <= remote.trace && old(remote.faults) <= remote.faults
      invariant remote.faults == old(remote.faults) ==>
        forall j :: KEPT_VERSIONS <= j < i ==> sorted[j] !in remote.Here().versions
      invariant remote.Here() == old(remote.Here()).(versions := remote.Here().versions)
      invariant SweptFrom(old(remote.Here()).versions, remote.Here().versions)
      invariant forall t :: t in remote.versions ==>
        t in old(remote.versions) && remote.versions[t] == old(remote.versions)[t]
      invariant forall j | 0 <= j < |sorted| && (j < KEPT_VERSIONS || i <= j) :: sorted[j] in remote.Here().versions
    {
      TailIsOutranked(remote.Here().versions, sorted, i);
      OutrankedEarlier(old(remote.Here()).versions, remote.Here().versions, sorted[i]);
      var _ := remote.DeleteVersion(sorted[i]);
    }
  }

  class Index {
    var entries: Entries
    var deleted: Marks

    constructor ()
      ensures Value() == EMPTY_INDEX
    {
      entries := NO_ENTRIES;
      deleted := map[];
    }

    function Value(): IndexVal
      reads this
    {
      IndexVal(entries, deleted)
    }

    // Save: the document this index is written as.
    method Save() returns (d: Doc)
      ensures d == Marshal(Value())
    {
      hide EncodedKeys, FileDocs, LinkDocs, MarkDocs, Newest;
      var files := EncodeKeys(FileDocs(entries.files));
      var dirs := EncodeKeys(entries.dirs);
      var links := EncodeKeys(LinkDocs(entries.links));
      d := Doc(files, dirs, links, MarkDocs(deleted));
    }

    // Load: a fresh index filled from a saved document.
    method Load(d: Doc) returns (ok: bool)
      modifies this
      ensures ok <==> ReadableFiles(d.files) && ReadableMarks(d.deleted)
      ensures ok ==> Loads(d, Value())
    {
      hide IsDecoding, LoadsFiles, LoadsLinks, LoadsMarks, FilesOf, LinksOf, ReadableFiles, ReadableMarks, IsValid,
        Newest;
      if !ReadableFiles(d.files) || !ReadableMarks(d.deleted) {
        return false;
      }
      var files := DecodeKeys(d.files);
      var dirs := DecodeKeys(d.dirs);
      var links := DecodeKeys(d.links);
      FilesLoad(d.files, files);
      LinksLoad(d.links, links);
      entries := Entries(FilesOf(files), dirs, LinksOf(links));
      deleted := LoadMarks(d.deleted);
      return true;
    }

    // The running backup has uploaded everything and planned its marks, or a
    // fsck has just loaded this index.
    ghost predicate ReadyForPass(s: State)
      reads this
    {
      if s.session.Idle? then s.versions.Keys != {} && Value() == Current(s.versions)
      else
        && Uploading(s)
        && s.session.built.entries == entries
        && ToUpload(s) <= s.store.Keys + s.session.vanished
        && PlannedMarks(s.session.loaded, IndexChunks(s.session.built), deleted, s.session.start, s.now)
    }

    // Waiting does not spoil readiness.
    lemma ReadyLater(s: State, s': State)
      requires ReadyForPass(s) && s.now <= s'.now && s' == s.(now := s'.now)
      ensures ReadyForPass(s')
    {
      hide Newest, IndexChunks;
    }

    ghost method BeginPassIn(remote: Remote)
      requires remote.Valid() && ReadyForPass(remote.Here())
      modifies remote`trace
      ensures remote.Valid() && old(remote.trace) < remote.trace
      ensures var s := remote.Here();
        && InPass(s) && PassTime(s) == s.now && PassIndex(s) == Value()
        && s == old(remote.Here()).(session := s.session)
        && (old(remote.Here().session.Idle?) ==> s.session == Fsck(Value(), s.now, false))
        && (old(Uploading(remote.Here())) ==>
            s.session == old(remote.Here().session).(built := Value(), pass := Some(s.now)))
    {
      hide Newest, IndexChunks, PlannedMarks;
      if remote.Here().session.Idle? {
        remote.Record(BeginFsck);
      } else {
        remote.Record(BeginPass(deleted));
      }
    }

    method DeleteOutdatedChunks(remote: Remote) returns (ok: bool)
      requires remote.Valid() && ReadyForPass(remote.Here())
      modifies this`deleted, remote
      ensures remote.Valid() && old(remote.trace) < remote.trace
      ensures remote.versions == old(remote.versions) && old(remote.now) <= remote.now
      ensures old(remote.faults) <= remote.faults && (remote.faults == old(remote.faults) ==> ok)
      // where the run stands: in the pass, holding this index
      ensures var s := remote.Here();
        && InPass(s) && PassTime(s) == s.now && PassIndex(s) == Value()
        && (old(remote.Here().session.Idle?) ==> s.session == Fsck(Value(), s.now, false))
        && (old(Uploading(remote.Here())) ==>
            s.session == old(remote.Here().session).(built := Value(), pass := Some(s.now)))
        && s == old(remote.Here()).(now := s.now, store := s.store, session := s.session)
      // what the pass did
      ensures ok ==> deleted == PassMarks(old(deleted), old(remote.store), remote.now)
      ensures ok ==> remote.store == PassStore(old(deleted), old(remote.store), remote.now)
      ensures Progress(old(deleted), old(remote.store), remote.now, {}, ok, deleted, remote.store)
    {
      hide Newest, IndexChunks, PlannedMarks, Progress, Turn, Marshal;
      var now := remote.Clock();
      ReadyLater(old(remote.Here()), remote.Here());
      BeginPassIn(remote);
      ghost var s0 := remote.Here();
      ok := true;
      var todo := deleted.Keys;
      NothingDone(deleted, remote.store, now);
      while todo != {}
        invariant remote.Valid() && old(remote.trace) < remote.trace
        invariant remote.versions == old(remote.versions) && remote.now == now
        invariant old(remote.faults) <= remote.faults && (remote.faults == old(remote.faults) ==> ok)
        invariant remote.Here() == s0.(store := remote.store, session := SetMarks(s0.session, deleted))
        invariant todo <= deleted.Keys
        invariant Progress(old(deleted), old(remote.store), now, todo, ok, deleted, remote.store)
        decreases todo
      {
        ghost var some := ElementOf(todo);
        ghost var m, store := deleted, remote.store;
        var k :| k in todo;
        var turned := Expire(remote, k, now);
        TurnProgresses(old(deleted), old(remote.store), now, todo, ok, m, store, k, turned, deleted, remote.store);
        ok := ok && turned;
        todo := todo - {k};
      }
      PassComplete(old(deleted), old(remote.store), now, ok, deleted, remote.store);
    }

    // The body of the loop over DeletedChunks, for key k.
    method Expire(remote: Remote, k: Key, now: int) returns (ok: bool)
      requires remote.Valid() && InPass(remote.Here()) && PassTime(remote.Here()) == now
      requires PassIndex(remote.Here()) == Value() && k in deleted
      modifies this`deleted, remote`store, remote`trace, remote`faults
      ensures remote.Valid() && old(remote.trace) <= remote.trace
      ensures old(remote.faults) <= remote.faults && (remote.faults == old(remote.faults) ==> ok)
      ensures remote.Here() == old(remote.Here()).(store := remote.store,
        session := SetMarks(old(remote.Here()).session, deleted))
      ensures Turn(old(deleted), old(remote.store), now, k, ok, deleted, remote.store)
    {
      hide Newest, IndexChunks, Marshal, Behaviour, PlannedMarks, Reconciled, Close, Current, Clamped, Outranked,
        Turn, PassDue, RaisedMark;
      ghost var m, store := deleted, remote.store;
      SkippedTurn(m, store, now, k, now <= m[k]);
      var t := deleted[k];
      if now <= t {
        return true;
      }
      var lmt := 0;
      var h := remote.Head(k);
      if h.Err? {
        return false;
      }
      if h.value.Some? && h.value.value.modified.Some? {
        lmt := h.value.value.modified.value + MIN_STORAGE;
      }
      if lmt > t {
        deleted := deleted[k := lmt];
        remote.Record(RaiseMark(k));
      }
      OverdueTurn(m, store, now, k, lmt, deleted);
      ok := true;
      if now > lmt {
        ok := Remove(remote, k);
      }
    }

    // Chunk and mark go together.
    method Remove(remote: Remote, k: Key) returns (ok: bool)
      requires remote.Valid() && Enabled(remote.Here(), Delete(k)) && PassIndex(remote.Here()) == Value()
      modifies this`deleted, remote`store, remote`trace, remote`faults
      ensures remote.Valid() && old(remote.trace) <= remote.trace
      ensures old(remote.faults) <= remote.faults && (remote.faults == old(remote.faults) ==> ok)
      ensures remote.Here() == old(remote.Here()).(store := remote.store,
        session := SetMarks(old(remote.Here()).session, deleted))
      ensures deleted == if ok then old(deleted) - {k} else old(deleted)
      ensures remote.store == old(remote.store) - {k} || (!ok && remote.store == old(remote.store))
    {
      hide Newest, IndexChunks, Marshal, Behaviour, PlannedMarks, Reconciled, Close, Current, Clamped, Outranked;
      ok := remote.DeleteChunk(k);
      if ok {
        deleted := deleted - {k};
      }
    }

    // LoadRemote, into a fresh index.
    method LoadRemote(remote: Remote, dir: WorkDir) returns (r: Result<(), LoadError>)
      requires remote.Valid()
      modifies this, remote`versions, remote`trace, remote`faults, dir`faults
      ensures remote.Valid() && old(remote.trace) <= remote.trace
      ensures remote.Here() == old(remote.Here()).(versions := remote.Here().versions)
      ensures SweptFrom(old(remote.Here()).versions, remote.Here().versions)
      ensures remote.NewestDigest() == old(remote.NewestDigest())
      ensures r.Ok? ==> remote.Here().versions.Keys != {} && Value() == Current(remote.Here().versions)
      ensures r.Err? && r.error.NotFound? ==> remote.Here().versions.Keys == {} && Value() == old(Value())
      ensures old(remote.faults) <= remote.faults && old(dir.faults) <= dir.faults
      ensures remote.faults == old(remote.faults) && dir.faults == old(dir.faults) ==>
        (r.Err? ==> r.error.NotFound?) && NewestThirty(old(remote.Here()).versions, remote.Here().versions)
    {
      hide Newest, IndexChunks, Marshal, Loads, NewestThirty, SweptFrom, Behaviour;
      var mh := dir.MetaHash();
      var latest := GetLatestIndex(remote);
      if latest.Err? {
        return Err(latest.error);
      }
      ghost var v := remote.Here().versions[latest.value];
      NewestIsCurrent(remote.Here().versions, latest.value);
      var rh := remote.HeadVersion(latest.value);
      if rh.Err? {
        return Err(CallFailed);
      }
      var got;
      if mh != NoDigest && mh == rh.value {
        got := dir.Read();
      } else {
        var ready := dir.Prepare();
        if !ready {
          return Err(CallFailed);
        }
        got := remote.GetVersion(latest.value);
      }
      if got.Err? {
        return Err(CallFailed);
      }
      assert got.value == Marshal(v);
      MarshalIsReadable(v);
      var ok := Load(got.value);
      IndexRoundTrip(v, Value());
      return Ok(());
    }

    // UploadRemote, the end of a run: publish this index unless its digest is
    // that of the newest version. swept is what the sweep before it leaves,
    // digest what the temporary file gave.
    method UploadRemote(remote: Remote, dir: WorkDir) returns (ok: bool, ghost swept: Versions, ghost digest: Digest)
      requires remote.Valid() && Enabled(remote.Here(), Publish)
      requires var session := remote.Here().session;
        Value() == if session.Backup? then session.built else session.index
      modifies remote, dir
      ensures remote.Valid() && old(remote.trace) < remote.trace
      ensures remote.store == old(remote.store) && remote.Here().session == Idle && old(remote.now) <= remote.now
      ensures ok ==> dir.cache == Some(Marshal(Value()))
      ensures Current(remote.Here().versions) == Current(old(remote.Here()).versions)
        || IsPublished(remote.Here().versions, Value())
      ensures SweptFrom(old(remote.Here()).versions, swept)
      ensures ok ==>
        remote.Here().versions == AfterUpload(swept, old(remote.NewestDigest()), digest, remote.now, Value())
      ensures ok ==> remote.NewestDigest() == digest
      // this index is the newest, unless neither it nor the newest has a digest
      ensures ok ==> (IsPublished(remote.Here().versions, Value()) <==>
        Publishes(old(remote.Here()).versions, old(remote.NewestDigest()), digest, Value()))
      ensures digest == NoDigest ==> old(dir.faults) < dir.faults
      ensures old(remote.faults) <= remote.faults && old(dir.faults) <= dir.faults
      ensures remote.faults == old(remote.faults) && dir.faults == old(dir.faults) ==>
        ok && NewestThirty(old(remote.Here()).versions, swept)
      // so 31 versions are left exactly if there were 30 and this one is put
      ensures remote.faults == old(remote.faults) && dir.faults == old(dir.faults) ==>
        (|remote.Here().versions| > KEPT_VERSIONS <==>
          && |old(remote.Here()).versions| >= KEPT_VERSIONS
          && digest != old(remote.NewestDigest()) && remote.now !in old(remote.Here()).versions)
    {
      hide Newest, Current, IndexChunks, Marshal, NewestThirty, SweptFrom, Behaviour, Enabled, Apply, SavedAs,
        IsPublished, Publishes;
      ghost var before, newest := remote.Here().versions, remote.NewestDigest();
      swept, digest := before, NoDigest;
      NothingSwept(swept);
      ok := dir.Prepare();
      if ok {
        var doc := Save();
        var lh := dir.HashTemporary(doc);
        digest := lh;
        ok, swept := PutIfChanged(remote, doc, lh);
        if ok {
          ok := dir.Replace(doc);
        }
      }
      if remote.faults == old(remote.faults) && dir.faults == old(dir.faults) {
        ThirtyOneIff(before, swept, digest != newest, remote.now, Value());
      }
      remote.End();
    }

    // The remote half of UploadRemote.
    method PutIfChanged(remote: Remote, doc: Doc, lh: Digest) returns (ok: bool, ghost swept: Versions)
      requires remote.Valid() && Enabled(remote.Here(), Publish)
      requires var session := remote.Here().session;
        Value() == if session.Backup? then session.built else session.index
      requires IsSaved(IndexObject(doc, lh), Value())
      modifies remote
      ensures remote.Valid() && old(remote.trace) <= remote.trace
      ensures remote.store == old(remote.store) && old(remote.now) <= remote.now
      ensures Current(remote.Here().versions) == Current(old(remote.Here()).versions)
        || IsPublished(remote.Here().versions, Value())
      ensures SweptFrom(old(remote.Here()).versions, swept)
      ensures ok ==> remote.Here().versions == AfterUpload(swept, old(remote.NewestDigest()), lh, remote.now, Value())
      ensures ok ==> remote.NewestDigest() == lh
      ensures ok ==> (IsPublished(remote.Here().versions, Value()) <==>
        Publishes(old(remote.Here()).versions, old(remote.NewestDigest()), lh, Value()))
      ensures old(remote.faults) <= remote.faults
      ensures remote.faults == old(remote.faults) ==> ok && NewestThirty(old(remote.Here()).versions, swept)
    {
      hide Newest, IndexChunks, Marshal, NewestThirty, SweptFrom, Behaviour, Current, IsPublished, Publishes,
        Remote.NewestDigest, Enabled, Apply, SavedAs;
      ghost var before, newest := remote.Here().versions, remote.NewestDigest();
      NewestIsSaved(remote);
      var rh := PublishedDigest(remote);
      swept := remote.Here().versions;
      SweepKeepsNewest(before, swept);
      SamePublished(before, swept, Value());
      if rh.Err? {
        return false, swept;
      }
      if lh == rh.value {
        UnpublishedIff(swept, newest, lh, remote.now, Value());
        return true, swept;
      }
      CanStillPublish(old(remote.Here()), remote.Here());
      PublishPuts(remote.Here(), Value());
      ok := remote.PutVersion(doc, lh, Value());
      UnpublishedIff(swept, newest, lh, remote.now, Value());
      PutIsPublished(swept, remote.now, Value());
      if ok {
        NewlyPut(remote);
      }
    }
  }

  // The digest of the newest version, none if there is no version.
  method PublishedDigest(remote: Remote) returns (r: Result<Digest, ()>)
    requires remote.Valid()
    modifies remote`versions, remote`trace, remote`faults
    ensures remote.Valid() && old(remote.trace) <= remote.trace && old(remote.faults) <= remote.faults
    ensures remote.NewestDigest() == old(remote.NewestDigest())
    ensures var versions := remote.Here().versions;
      && remote.Here() == old(remote.Here()).(versions := versions)
      && SweptFrom(old(remote.Here()).versions, versions)
      && (r.Ok? ==> r.value == remote.NewestDigest())
      && (remote.faults == old(remote.faults) ==> r.Ok? && NewestThirty(old(remote.Here()).versions, versions))
  {
    hide Newest, IndexChunks, Marshal, NewestThirty, SweptFrom, Behaviour, Current, ClockAhead;
    var latest := GetLatestIndex(remote);
    if latest.Err? {
      return if latest.error.NotFound? then Ok(NoDigest) else Err(());
    }
    NewestIsCurrent(remote.Here().versions, latest.value);
    assert latest.value in remote.Here().versions;
    r := remote.HeadVersion(latest.value);
  }

  // ---- what an upload publishes ----

  // The newest version is v already.
  ghost predicate IsPublished(versions: Versions, v: IndexVal) {
    versions.Keys != {} && Current(versions) == v
  }

  lemma PublishedIsCurrent(versions: Versions, v: IndexVal)
    ensures IsPublished(versions, v) ==> versions.Keys != {} && Current(versions) == v
  {
  }

  // What an upload that succeeds makes of the versions: nothing is put where
  // the digests agree.
  ghost function AfterUpload(versions: Versions, newest: Digest, digest: Digest, now: int, v: IndexVal): Versions {
    if digest == newest then versions else versions[now := v]
  }

  ghost predicate Publishes(versions: Versions, newest: Digest, digest: Digest, v: IndexVal) {
    digest != NoDigest || newest != NoDigest || IsPublished(versions, v)
  }

  // A digest the newest version may carry.
  ghost predicate DigestOfNewest(versions: Versions, newest: Digest) {
    newest == NoDigest || (versions.Keys != {} && newest == Sha1(Marshal(Current(versions))))
  }

  // The upload of v succeeds and leaves another index newest, or none,
  // exactly if neither the uploaded file nor the newest version has a digest
  // and the newest version is not v already.
  lemma UnpublishedIff(versions: Versions, newest: Digest, digest: Digest, now: int, v: IndexVal)
    requires DigestOfNewest(versions, newest) && (digest == NoDigest || digest == Sha1(Marshal(v)))
    requires forall t :: t in versions ==> t <= now
    ensures IsPublished(AfterUpload(versions, newest, digest, now, v), v) <==> Publishes(versions, newest, digest, v)
  {
    hide Marshal, Current;
    if digest == newest && digest != NoDigest {
      MarshalInjective(v, Current(versions));
    }
    PutIsPublished(versions, now, v);
  }

  lemma PutIsPublished(versions: Versions, now: int, v: IndexVal)
    requires forall t :: t in versions ==> t <= now
    ensures IsPublished(versions[now := v], v)
  {
    hide Current;
    CurrentAfterPublish(versions, now, v);
    assert now in versions[now := v];
  }

  // So a first backup whose file cannot be read back ends well with nothing
  // published.
  lemma FirstUnreadableIsLost(now: int, v: IndexVal)
    ensures AfterUpload(map[], NoDigest, NoDigest, now, v) == map[]
    ensures !IsPublished(AfterUpload(map[], NoDigest, NoDigest, now, v), v)
  {
    hide Marshal, Current;
    UnpublishedIff(map[], NoDigest, NoDigest, now, v);
  }

  // Over a version with a digest such an upload is put, without one; the next
  // such upload, of any other index, is then taken for the same and lost.
  lemma SecondUnreadableIsLost(versions: Versions, newest: Digest, now: int, v: IndexVal, later: int, w: IndexVal)
    requires newest != NoDigest && DigestOfNewest(versions, newest) && now <= later && v != w
    requires forall t :: t in versions ==> t <= now
    ensures var one := AfterUpload(versions, newest, NoDigest, now, v);
      IsPublished(one, v) && IsPublished(AfterUpload(one, NoDigest, NoDigest, later, w), v)
  {
    hide Marshal, Current;
    UnpublishedIff(versions, newest, NoDigest, now, v);
  }

  // A sweep does not change what is published.
  lemma SamePublished(before: Versions, swept: Versions, v: IndexVal)
    requires Current(swept) == Current(before) && (swept.Keys == {} <==> before.Keys == {})
    ensures IsPublished(swept, v) <==> IsPublished(before, v)
    ensures forall newest, digest :: Publishes(swept, newest, digest, v) <==> Publishes(before, newest, digest, v)
    ensures forall newest :: DigestOfNewest(swept, newest) <==> DigestOfNewest(before, newest)
  {
  }

  lemma NewestIsSaved(remote: Remote)
    requires remote.Valid()
    ensures DigestOfNewest(remote.Here().versions, remote.NewestDigest())
  {
    hide Marshal, Behaviour;
  }

  lemma CanStillPublish(s: State, s': State)
    requires Enabled(s, Publish) && s' == s.(versions := s'.versions)
    ensures Enabled(s', Publish)
  {
  }

  lemma PublishPuts(s: State, v: IndexVal)
    requires Enabled(s, Publish) && v == if s.session.Backup? then s.session.built else s.session.index
    ensures forall t :: s.now <= t ==>
      var s' := s.(now := t);
      Enabled(s', Publish) && Apply(s', Publish).versions == s.versions[t := v]
  {
  }

  // A version put now is the newest.
  lemma NewlyPut(remote: Remote)
    requires remote.Valid() && remote.now in remote.Here().versions
    ensures remote.NewestDigest() == remote.versions[remote.now].digest
  {
    hide Marshal, Behaviour;
    NewestIsCurrent(remote.Here().versions, remote.now);
  }

  lemma NothingSwept(versions: Versions)
    ensures SweptFrom(versions, versions)
  {
  }

  lemma NewestIsCurrent(versions: Versions, t: int)
    requires IsNewest(versions, t)
    ensures Current(versions) == versions[t] && Newest(versions) == t
  {
  }
}
