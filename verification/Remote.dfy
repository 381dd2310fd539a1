// cos.go: the bucket and the wall clock, one method per remote call. Every
// call may fail, and one that changes the bucket may fail after it took effect.
module Remotes {
  import opened Utf8
  import opened Wrappers
  import opened ChunkKeys
  import opened Archive
  import opened IndexDoc
  import opened Protocol
  import opened ProtocolSafety
  import opened Listing

  // The value of x-cos-meta-hash. SHA-1 is taken to be injective on saved
  // indexes, so a digest is modelled as the document it was computed from.
  datatype Digest = NoDigest | Sha1(of: Doc)

  datatype IndexObject = IndexObject(doc: Doc, digest: Digest)

  // Saved with its digest, or with none where the saved file could not be read
  // back to compute it.
  ghost predicate IsSaved(o: IndexObject, v: IndexVal) {
    o.doc == Marshal(v) && (o.digest == NoDigest || o.digest == Sha1(o.doc))
  }

  datatype PutResult = Stored | Gone | Failed

  ghost predicate SavedAs(objects: map<int, IndexObject>, versions: Versions) {
    objects.Keys == versions.Keys && forall t :: t in versions ==> IsSaved(objects[t], versions[t])
  }

  // The names chunks are stored under, for a prefix such as data/.
  function ChunkNames(stored: set<Key>, prefix: Bytes): set<Bytes> {
    set k | k in stored :: prefix + ChunkPath(k)
  }

  // The clock is not behind any published version.
  ghost predicate ClockAhead(versions: Versions, now: int) {
    forall t :: t in versions ==> t <= now
  }

  class Remote {
    const prefix: Bytes // of every chunk's name, and of nothing else's
    var store: Store
    var versions: map<int, IndexObject> // by the timestamp in the object name
    var now: int

    // Every state this bucket has been in, with what its one client held.
    ghost var trace: seq<State>

    // How many calls have failed.
    ghost var faults: nat

    ghost function Here(): State
      reads this`trace
      requires trace != []
    {
      trace[|trace| - 1]
    }

    ghost predicate Valid()
      reads this`trace, this`store, this`versions, this`now
    {
      && trace != [] && Behaviour(trace)
      && Here().store == store
      && Here().now == now
      && SavedAs(versions, Here().versions)
      && ClockAhead(Here().versions, now)
    }

    // The digest the newest version carries, none if there is no version.
    ghost function NewestDigest(): Digest
      reads this`trace, this`store, this`versions, this`now
      requires Valid()
    {
      if Here().versions.Keys == {} then NoDigest else versions[Newest(Here().versions)].digest
    }

    // A bucket as it is found, with the index versions in it.
    constructor (prefix: Bytes, store: Store, versions: map<int, IndexObject>, now: int, ghost saved: Versions)
      requires SavedAs(versions, saved) && ClockAhead(saved, now)
      ensures this.prefix == prefix
      ensures Valid()
      ensures this.versions == versions && trace == [State(store, saved, now, OpeningHistory(saved), Idle)]
    {
      this.prefix := prefix;
      this.store := store;
      this.versions := versions;
      this.now := now;
      faults := 0;
      trace := [State(store, saved, now, OpeningHistory(saved), Idle)];
    }

    // ---- the clock ----

    method Clock() returns (t: int)
      requires Valid()
      modifies this
      ensures Valid() && t == now && old(now) <= now && faults == old(faults)
      ensures trace == old(trace) + [old(Here()).(now := t)]
      ensures versions == old(versions)
    {
      hide Marshal;
      t := *;
      if t < now {
        t := now;
      }
      now := t;
      Record(Tick(now));
    }

    // ---- chunks ----

    method Head(k: Key) returns (r: Result<Option<Obj>, ()>)
      modifies this`faults
      ensures r.Ok? ==> r.value == if k in store then Some(store[k]) else None
      ensures faults == if r.Ok? then old(faults) else old(faults) + 1
    {
      var ok := *;
      faults := if ok then faults else faults + 1;
      r := if ok then Ok(if k in store then Some(store[k]) else None) else Err(());
    }

    // Upload of a local file, whose bytes are content if it still exists.
    method PutChunk(k: Key, content: Bytes) returns (r: PutResult)
      requires Valid() && Uploading(Here())
      requires k in ToUpload(Here()) && k !in store && k !in Here().session.vanished
      modifies this
      ensures Valid() && old(trace) < trace && versions == old(versions) && old(now) <= now
      ensures Here() == old(Here()).(now := now, store := store, session := Here().session)
      ensures r != Gone ==> Here().session == old(Here().session)
      ensures r == Gone ==> store == old(store)
      ensures r == Gone ==> Here().session == old(Here().session).(vanished := old(Here().session.vanished) + {k})
      ensures r == Stored ==> k in store && store == old(store)[k := store[k]] && store[k].content == content
      ensures r == Failed ==>
        store == old(store) || (k in store && store == old(store)[k := store[k]] && store[k].content == content)
      ensures faults == if r != Failed then old(faults) else old(faults) + 1
    {
      hide Marshal, Newest, IndexChunks, Behaviour, PlannedMarks, Reconciled, Outranked, Current, Close;
      var t := Clock();
      r := *;
      faults := if r != Failed then faults else faults + 1;
      if r == Gone {
        Record(Vanish(k));
        return;
      }
      var stamped, arrived := *, *;
      if r == Stored || arrived {
        var obj := Obj(content, if stamped then Some(t) else None);
        store := store[k := obj];
        Record(Put(k, obj));
      }
    }

    // The local file of k turned out to be gone; the upload is skipped.
    ghost method FileGone(k: Key)
      requires Valid() && Enabled(Here(), Vanish(k))
      modifies this`trace
      ensures Valid() && old(trace) <= trace
      ensures Here() == old(Here()).(session := old(Here()).session.(vanished := old(Here()).session.vanished + {k}))
    {
      Record(Vanish(k));
    }

    method DeleteChunk(k: Key) returns (ok: bool)
      requires Valid() && Enabled(Here(), Delete(k))
      modifies this`store, this`trace, this`faults
      ensures Valid() && old(trace) <= trace
      ensures ok ==> Here() == Apply(old(Here()), Delete(k))
      ensures !ok ==> Here() == old(Here()) || Here() == Apply(old(Here()), LoseDelete(k))
      ensures faults == if ok then old(faults) else old(faults) + 1
    {
      ok := *;
      faults := if ok then faults else faults + 1;
      var arrived := *;
      if ok {
        store := store - {k};
        Record(Delete(k));
      } else if arrived {
        store := store - {k};
        Record(LoseDelete(k));
      }
    }

    // Download of a chunk; there may be none.
    method GetChunk(k: Key) returns (r: Result<Bytes, ()>)
      modifies this`faults
      ensures r.Ok? ==> k in store && r.value == store[k].content
      ensures faults == if r.Ok? || k !in store then old(faults) else old(faults) + 1
    {
      var ok := *;
      faults := if ok || k !in store then faults else faults + 1;
      r := if ok && k in store then Ok(store[k].content) else Err(());
    }

    // One page of a listing of chunk names.
    method GetPage(prefix: Bytes, marker: Bytes, maxKeys: nat) returns (r: Result<Page, ()>)
      requires 0 < maxKeys
      modifies this`faults
      ensures r.Ok? ==> IsPage(ChunkNames(store.Keys, this.prefix), prefix, marker, r.value)
      ensures faults == if r.Ok? then old(faults) else old(faults) + 1
    {
      var ok := *;
      faults := if ok then faults else faults + 1;
      if !ok {
        return Err(());
      }
      var page := Listing.GetPage(ChunkNames(store.Keys, this.prefix), prefix, marker, maxKeys);
      r := Ok(page);
    }

    // ---- index versions ----

    method HeadVersion(t: int) returns (r: Result<Digest, ()>)
      modifies this`faults
      ensures r.Ok? ==> r.value == if t in versions then versions[t].digest else NoDigest
      ensures faults == if r.Ok? then old(faults) else old(faults) + 1
    {
      var ok := *;
      faults := if ok then faults else faults + 1;
      r := if ok then Ok(if t in versions then versions[t].digest else NoDigest) else Err(());
    }

    method GetVersion(t: int) returns (r: Result<Doc, ()>)
      modifies this`faults
      ensures r.Ok? ==> t in versions && r.value == versions[t].doc
      ensures faults == if r.Ok? || t !in versions then old(faults) else old(faults) + 1
    {
      var ok := *;
      faults := if ok || t !in versions then faults else faults + 1;
      r := if ok && t in versions then Ok(versions[t].doc) else Err(());
    }

    method ListVersions() returns (r: Result<seq<int>, ()>)
      modifies this`faults
      ensures r.Ok? ==> forall t :: t in r.value <==> t in versions
      ensures r.Ok? ==> forall i, j :: 0 <= i < j < |r.value| ==> r.value[i] != r.value[j]
      ensures faults == if r.Ok? then old(faults) else old(faults) + 1
    {
      var ok := *;
      faults := if ok then faults else faults + 1;
      if !ok {
        return Err(());
      }
      var list := [];
      var todo := versions.Keys;
      while todo != {}
        invariant todo <= versions.Keys && faults == old(faults)
        invariant forall t :: t in list <==> t in versions.Keys - todo
        invariant forall i, j :: 0 <= i < j < |list| ==> list[i] != list[j]
        decreases todo
      {
        ghost var some := ElementOf(todo);
        var t :| t in todo;
        todo := todo - {t};
        assert t !in list;
        list := list + [t];
      }
      return Ok(list);
    }

    method DeleteVersion(t: int) returns (ok: bool)
      requires Valid() && t in Here().versions && Outranked(Here().versions, t)
      modifies this`versions, this`trace, this`faults
      ensures Valid() && old(trace) <= trace
      ensures Here() == old(Here()).(versions := Here().versions)
      ensures ok ==> Here().versions == old(Here()).versions - {t}
      ensures !ok ==> Here().versions == old(Here()).versions || Here().versions == old(Here()).versions - {t}
      ensures forall u :: u in versions ==> u in old(versions) && versions[u] == old(versions)[u]
      ensures faults == if ok then old(faults) else old(faults) + 1
    {
      ok := *;
      faults := if ok then faults else faults + 1;
      var arrived := *;
      if ok || arrived {
        versions := versions - {t};
        Record(Sweep(t));
      }
    }

    // Upload of the index v under the current time.
    method PutVersion(doc: Doc, digest: Digest, ghost v: IndexVal) returns (ok: bool)
      requires Valid() && Enabled(Here(), Publish)
      requires v == if Here().session.Backup? then Here().session.built else Here().session.index
      requires IsSaved(IndexObject(doc, digest), v)
      modifies this
      ensures Valid() && old(trace) < trace && store == old(store) && old(now) <= now
      ensures ok ==> Here() == Apply(old(Here()).(now := now), Publish)
      ensures !ok ==> Here() == old(Here()).(now := now) || Here() == Apply(old(Here()).(now := now), Publish)
      ensures ok ==> versions == old(versions)[now := IndexObject(doc, digest)]
      ensures faults == if ok then old(faults) else old(faults) + 1
    {
      hide Marshal, Newest, IndexChunks, Behaviour, PlannedMarks, Reconciled, Outranked, ToUpload, Current, Close;
      var t := Clock();
      ok := *;
      faults := if ok then faults else faults + 1;
      var arrived := *;
      if ok || arrived {
        assert Enabled(Here(), Publish);
        versions := versions[t := IndexObject(doc, digest)];
        Record(Publish);
      }
    }

    // ---- ghost bookkeeping ----

    ghost method Begin(entries: Entries)
      requires Valid() && Here().session.Idle?
      modifies this`trace
      ensures Valid() && old(trace) < trace
      ensures Here() == old(Here()).(session :=
        Backup(now, Current(Here().versions), IndexVal(entries, map[]), store.Keys, {}, None))
    {
      Record(BeginBackup(entries));
    }

    // The run ends here, or dies.
    ghost method End()
      requires Valid()
      modifies this`trace
      ensures Valid() && old(trace) < trace
      ensures Here() == old(Here()).(session := Idle)
    {
      Record(Stop);
    }

    // Appends the step that the fields have just taken.
    ghost method Record(step: Step)
      requires trace != [] && Behaviour(trace) && Enabled(Here(), step)
      requires var s := Apply(Here(), step);
        s.store == store && s.now == now && SavedAs(versions, s.versions) && ClockAhead(s.versions, now)
      modifies this`trace
      ensures Valid() && trace == old(trace) + [Apply(old(Here()), step)]
    {
      trace := trace + [Apply(Here(), step)];
      BehaviourExtends(old(trace), step, Here());
    }
  }

  lemma BehaviourExtends(b: seq<State>, step: Step, s: State)
    requires Behaviour(b) && Takes(b[|b| - 1], step, s)
    ensures Behaviour(b + [s])
  {
  }

  // Whatever this client did, as long as no file vanished under it and its
  // deletion passes were in time: the newest index was always complete, and
  // every superseded one for its grace.
  lemma AlwaysSafe(remote: Remote)
    requires remote.Valid() && Run(remote.trace)
    ensures forall i :: 0 <= i < |remote.trace| ==> PublishedSafe(remote.trace[i]) && GraceKept(remote.trace[i])
  {
    hide Run, PublishedSafe, GraceKept, Behaviour, SavedAs;
    forall i | 0 <= i < |remote.trace| ensures PublishedSafe(remote.trace[i]) && GraceKept(remote.trace[i]) {
      PublishedAlwaysSafe(remote.trace, i);
      GraceAlwaysKept(remote.trace, i);
    }
  }
}
