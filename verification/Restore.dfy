// download.go, and what a download followed by linkFiles amounts to.
module Restores {
  import opened Utf8
  import opened Wrappers
  import opened ChunkKeys
  import opened Archive
  import opened IndexDoc
  import opened Protocol
  import opened ProtocolSafety
  import opened Remotes
  import opened VersionList
  import opened Indexes
  import opened UploadPlan
  import opened Scans
  import opened Backups
  import opened Paths
  import opened MountView
  import opened Targets
  import opened DirModes
  import opened Links

  const MAX_DOWNLOAD_RETRIES := 10
  const NEW_FILE_MODE := 420 // 0644, until linking sets the recorded one

  // How many calls and operations have failed.
  ghost function Faults(remote: Remote, dir: WorkDir, target: Target): nat
    reads remote`faults, dir`faults, target`faults
  {
    remote.faults + dir.faults + target.faults
  }

  // The local file of k holds what the store has, or at least what k says.
  predicate HasChunk(chunks: map<LocalName, Inode>, store: Store, k: Key, hash: Bytes -> Hash) {
    && LocalNameOf(k) in chunks
    && var content := chunks[LocalNameOf(k)].content;
      IsContentOf(content, k, hash) || (k in store && content == store[k].content)
  }

  // The local file of k has the size and hash of k.
  predicate HasContent(chunks: map<LocalName, Inode>, k: Key, hash: Bytes -> Hash) {
    LocalNameOf(k) in chunks && IsContentOf(chunks[LocalNameOf(k)].content, k, hash)
  }

  // The inner loop of downloadChunk: Refused when it gives up. A failed
  // download may leave anything behind; attempts counts the downloads, legible
  // says whether a local file could be read at the first turn.
  method FetchChunk(remote: Remote, target: Target, k: Key, hash: Bytes -> Hash)
    returns (r: Outcome, ghost attempts: nat, ghost legible: bool)
    modifies target`chunks, target`faults, remote`faults
    ensures r != Escaped && attempts <= 10 && (r == Refused ==> attempts == 10)
    // a file that is right already is left alone, and nothing is downloaded
    ensures r != Faulty && legible && HasContent(old(target.chunks), k, hash) ==>
      r == Done && attempts == 0 && target.chunks == old(target.chunks)
    ensures r == Done && attempts == 0 ==> HasContent(old(target.chunks), k, hash)
    ensures r == Done ==> HasChunk(target.chunks, remote.store, k, hash)
    ensures forall n :: n != LocalNameOf(k) && n in old(target.chunks) ==>
      n in target.chunks && target.chunks[n] == old(target.chunks)[n]
    // a stored chunk is given up only after ten failed downloads in a row
    ensures r == Refused && k in remote.store ==> remote.faults == old(remote.faults) + 10
    ensures old(remote.faults) <= remote.faults
    ensures target.faults == if r == Faulty then old(target.faults) + 1 else old(target.faults)
  {
    hide LocalNameOf, IsContentOf, ChunkNames;
    attempts, legible := 0, false;
    var name := LocalNameOf(k);
    var made := target.MakeChunkDir();
    if !made {
      return Faulty, attempts, legible;
    }
    var retries := 0;
    while true
      invariant retries == attempts <= MAX_DOWNLOAD_RETRIES
      invariant attempts == 0 ==> target.chunks == old(target.chunks)
      invariant attempts > 0 ==> !(legible && HasContent(old(target.chunks), k, hash))
      invariant forall n :: n != name && n in old(target.chunks) ==>
        n in target.chunks && target.chunks[n] == old(target.chunks)[n]
      invariant old(remote.faults) <= remote.faults && target.faults == old(target.faults)
      invariant k in remote.store ==> remote.faults == old(remote.faults) + retries
      decreases MAX_DOWNLOAD_RETRIES - retries
    {
      if retries >= MAX_DOWNLOAD_RETRIES {
        return Refused, attempts, legible;
      }
      var readable := *;
      if attempts == 0 {
        legible := readable;
      }
      if name in target.chunks && readable {
        if IsContentOf(target.chunks[name].content, k, hash) {
          return Done, attempts, legible;
        }
      }
      attempts := attempts + 1;
      var got := remote.GetChunk(k);
      if got.Ok? {
        target.chunks := target.chunks[name := Inode(got.value, NEW_FILE_MODE, remote.now)];
        return Done, attempts, legible;
      }
      var partial, leftover: Bytes := *, *;
      if partial {
        target.chunks := target.chunks[name := Inode(leftover, NEW_FILE_MODE, remote.now)];
      }
      retries := retries + 1;
    }
  }

  // downloadChunk, over the listed chunks in any order.
  method DownloadChunk(remote: Remote, target: Target, cm: ChunksMap, hash: Bytes -> Hash) returns (r: Outcome)
    modifies target`chunks, target`faults, remote`faults
    ensures r != Escaped
    ensures r == Done ==> forall k :: k in cm ==> HasChunk(target.chunks, remote.store, k, hash)
    ensures old(remote.faults) <= remote.faults && old(target.faults) <= target.faults
    ensures remote.faults == old(remote.faults) && target.faults == old(target.faults) ==>
      cm.Keys <= remote.store.Keys ==> r == Done
  {
    hide HasChunk, LocalNameOf, ChunkNames;
    var todo := cm.Keys;
    while todo != {}
      invariant todo <= cm.Keys
      invariant forall k :: k in cm.Keys - todo ==> HasChunk(target.chunks, remote.store, k, hash)
      invariant old(remote.faults) <= remote.faults && old(target.faults) <= target.faults
      decreases todo
    {
      ghost var some := ElementOf(todo);
      var k :| k in todo;
      todo := todo - {k};
      ghost var before := target.chunks;
      ghost var attempts, legible;
      r, attempts, legible := FetchChunk(remote, target, k, hash);
      if r != Done {
        return;
      }
      forall j | j in cm.Keys - todo && j != k ensures HasChunk(target.chunks, remote.store, j, hash) {
        OthersKept(before, target.chunks, remote.store, k, j, hash);
      }
    }
    return Done;
  }

  lemma OthersKept(a: map<LocalName, Inode>, b: map<LocalName, Inode>, store: Store, k: Key, j: Key,
                   hash: Bytes -> Hash)
    requires j != k && HasChunk(a, store, j, hash)
    requires forall n :: n != LocalNameOf(k) && n in a ==> n in b && b[n] == a[n]
    ensures HasChunk(b, store, j, hash)
  {
    hide LocalNameOf;
    if LocalNameOf(j) == LocalNameOf(k) {
      LocalNameInjective(j, k);
    }
  }

  // downloadFiles: Refused where there is no index.
  method DownloadFiles(remote: Remote, dir: WorkDir, target: Target, hash: Bytes -> Hash) returns (r: Outcome)
    requires remote.Valid() && remote.Here().session.Idle?
    modifies remote`versions, remote`trace, remote`faults, dir`faults, target`chunks, target`index, target`faults
    ensures remote.Valid() && old(remote.trace) <= remote.trace && r != Escaped
    ensures remote.Here() == old(remote.Here()).(versions := remote.Here().versions)
    ensures Current(remote.Here().versions) == Current(old(remote.Here()).versions)
    ensures remote.Here().versions.Keys <= old(remote.Here()).versions.Keys
    ensures r == Done ==> target.index == Some(Marshal(Current(remote.Here().versions)))
    ensures r == Done ==> forall k :: k in remote.store ==> HasChunk(target.chunks, remote.store, k, hash)
    ensures r == Refused ==> old(remote.Here()).versions.Keys == {}
    // where no call fails, it ends well exactly if there is an index
    ensures old(remote.faults) <= remote.faults && old(dir.faults) <= dir.faults && old(target.faults) <= target.faults
    ensures Faults(remote, dir, target) == old(Faults(remote, dir, target)) ==>
      r == if old(remote.Here()).versions.Keys == {} then Refused else Done
  {
    hide Newest, Marshal, Behaviour, HasChunk, ChunkNames, Current, NewestThirty, SweptFrom, Remote.NewestDigest,
      SavedAs, ClockAhead;
    var index := new Index();
    var loaded := index.LoadRemote(remote, dir);
    SweepKeepsNewest(old(remote.Here()).versions, remote.Here().versions);
    if loaded.Err? {
      return if loaded.error.NotFound? then Refused else Faulty;
    }
    var doc := index.Save();
    var saved := target.SaveIndex(doc);
    if !saved {
      return Faulty;
    }
    var scan := ScanRemoteChunksMap(remote);
    if scan.Err? {
      return Faulty;
    }
    r := DownloadChunk(remote, target, scan.value, hash);
    if r != Done {
      return Faulty;
    }
  }

  // ---- end to end ----

  // The target shows exactly the entries of an index: every directory, every
  // link with its target, and for every file the bytes its key stands for.
  ghost predicate Restored(tree: Tree, chunks: map<LocalName, Inode>, e: Entries, hash: Bytes -> Hash) {
    && (forall c: Names :: c in tree <==> c in Lineages(e.dirs.Keys) || PathOf(c) in e.links || PathOf(c) in e.files)
    && (forall d :: d in Lineages(e.dirs.Keys) ==> d in tree && tree[d].FsDir?)
    && (forall c: Names :: PathOf(c) in e.links ==> tree[c] == FsLink(e.links[PathOf(c)].linkTo))
    && (forall c: Names :: PathOf(c) in e.files ==> HoldsFile(tree[c], chunks, e.files[PathOf(c)], hash))
  }

  ghost predicate HoldsFile(node: FsNode, chunks: map<LocalName, Inode>, fi: FileInfo, hash: Bytes -> Hash) {
    node.FsFile? && node.of in chunks && IsContentOf(chunks[node.of].content, KeyOf(fi), hash)
  }

  // The entries can be laid out in an empty directory: each stands in an
  // indexed directory, and no two of them, nor one and a directory, collide.
  ghost predicate Shaped(e: Entries) {
    && e.files.Keys !! e.links.Keys
    && forall p :: p in e.files.Keys + e.links.Keys ==>
      CompsOf(Dir(p)) in Lineages(e.dirs.Keys) && CompsOf(p) !in Lineages(e.dirs.Keys)
  }

  lemma PlaceInEmpty(e: Entries, p: Path)
    requires IsClean(p) && p != ROOT
    ensures CompsOf(p) != []
    ensures CanPlace(Prepared(map[], e), CompsOf(p)) <==>
      CompsOf(Dir(p)) in Lineages(e.dirs.Keys) && CompsOf(p) !in Lineages(e.dirs.Keys)
  {
    hide Lineages, CompsOf, PathOf, Dir;
    var d, n := TakeApart(p);
    assert (d + [n])[..|d + [n]| - 1] == d;
  }

  lemma LinkableIffShaped(e: Entries, names: set<LocalName>)
    requires WellPathed(e)
    ensures Linkable(map[], names, e) <==>
      Shaped(e) && forall p :: p in e.files ==> LocalNameOf(KeyOf(e.files[p])) in names
  {
    hide Lineages, CompsOf, PathOf, Dir, CanPlace, IsClean, Prepared, LocalNameOf;
    forall p | p in e.links ensures LinkFits(map[], e, p) <==>
      CompsOf(Dir(p)) in Lineages(e.dirs.Keys) && CompsOf(p) !in Lineages(e.dirs.Keys)
    {
      PlaceInEmpty(e, p);
    }
    forall p | p in e.files ensures FileFits(map[], names, e, p) <==>
      && p !in e.links && LocalNameOf(KeyOf(e.files[p])) in names
      && CompsOf(Dir(p)) in Lineages(e.dirs.Keys) && CompsOf(p) !in Lineages(e.dirs.Keys)
    {
      PlaceInEmpty(e, p);
    }
  }

  // A file that is a configured path itself, in a directory that is not
  // backed up, can never be linked.
  lemma LoneFileIsRefused(e: Entries, names: set<LocalName>, p: Path)
    requires WellPathed(e) && p in e.files && CompsOf(Dir(p)) !in Lineages(e.dirs.Keys)
    ensures !Linkable(map[], names, e)
  {
    hide Linkable, Lineages, CompsOf, Dir;
    LinkableIffShaped(e, names);
  }

  // Entries that can be laid out are never behind a link of the index, so
  // linking them stays inside the target.
  lemma ShapedStaysInside(e: Entries, names: set<LocalName>)
    requires WellPathed(e) && Shaped(e)
    ensures !CanEscape(map[], names, e)
  {
    hide Shaped, Lineages, CompsOf, IsClean, LinkFits, LocalNameOf, KeyOf, BehindLink;
    forall p | p in e.links.Keys + e.files.Keys ensures !BehindLink(map[], e, p) {
      NotBehindLink(e, p);
    }
  }

  lemma NotBehindLink(e: Entries, p: Path)
    requires WellPathed(e) && Shaped(e) && p in e.links.Keys + e.files.Keys
    ensures !BehindLink(map[], e, p)
  {
    hide Lineages, CompsOf, PathOf, Dir, IsClean, LinkFits;
    forall i | 0 <= i < |CompsOf(p)| ensures PathOf(CompsOf(p)[..i]) !in e.links {
      CompsOfPath(CompsOf(p)[..i]);
      var d, n := TakeApart(p);
      assert CompsOf(p)[..i] <= d;
      LineagesClosed(e.dirs.Keys, CompsOf(p)[..i], d);
    }
  }

  // What the store holds under a key is what the target holds.
  lemma Fetched(s: State, chunks: map<LocalName, Inode>, chunks': map<LocalName, Inode>, hash: Bytes -> Hash, k: Key)
    requires PublishedSafe(s) && ContentAddressed(s.store, hash) && SameContents(chunks, chunks')
    requires forall j :: j in s.store ==> HasChunk(chunks, s.store, j, hash)
    requires k in IndexChunks(Current(s.versions))
    ensures LocalNameOf(k) in chunks && LocalNameOf(k) in chunks'
    ensures IsContentOf(chunks'[LocalNameOf(k)].content, k, hash)
  {
  }

  lemma RestoredByLinking(s: State, e: Entries, tree: Tree, chunks: map<LocalName, Inode>,
                          chunks': map<LocalName, Inode>, hash: Bytes -> Hash)
    requires PublishedSafe(s) && ContentAddressed(s.store, hash) && SameContents(chunks, chunks')
    requires forall j :: j in s.store ==> HasChunk(chunks, s.store, j, hash)
    requires e == Current(s.versions).entries
    requires Placed(tree, Prepared(map[], e), e, e.links.Keys, e.files.Keys)
    ensures Restored(tree, chunks', e, hash)
  {
    hide PublishedSafe, ContentAddressed, HasChunk, LocalNameOf, Newest, PathOf, CompsOf, Lineages, IsContentOf,
      SameContents, Current;
    assert Prepared(map[], e).Keys == Lineages(e.dirs.Keys);
    forall c: Names | PathOf(c) in e.files ensures HoldsFile(tree[c], chunks', e.files[PathOf(c)], hash) {
      var k := KeyOf(e.files[PathOf(c)]);
      assert k in IndexChunks(Current(s.versions));
      Fetched(s, chunks, chunks', hash, k);
    }
  }

  // Download, then link, into an empty target: after any trusted run, where
  // no call fails, the newest index is restored exactly if its entries can be
  // laid out at all.
  method DownloadThenLink(remote: Remote, dir: WorkDir, target: Target, hash: Bytes -> Hash) returns (r: Outcome)
    requires remote.Valid() && remote.Here().session.Idle? && target.tree == map[]
    requires WellPathed(Current(remote.Here().versions).entries)
    modifies remote`versions, remote`trace, remote`faults, dir`faults, target
    ensures remote.Valid() && old(remote.trace) <= remote.trace
    ensures Current(remote.Here().versions) == Current(old(remote.Here()).versions)
    ensures remote.Here().versions.Keys <= old(remote.Here()).versions.Keys
    ensures var e := Current(remote.Here().versions).entries;
      r == Done ==> Shaped(e) && forall p :: p in e.files ==> HasAttributes(target.chunks, e, p, e.files.Keys)
    ensures r == Done && NestedAgree(Current(remote.Here().versions).entries.dirs) ==>
      ModesKept(target.modes, Current(remote.Here().versions).entries.dirs)
    ensures var e := Current(remote.Here().versions).entries;
      r == Escaped ==> CanEscape(map[], target.chunks.Keys, e) && !Shaped(e)
    ensures Run(old(remote.trace)) && ContentAddressed(remote.store, hash) ==>
      && (r == Done ==> Restored(target.tree, target.chunks, Current(remote.Here().versions).entries, hash))
      && (r == Refused ==> old(remote.Here()).versions.Keys == {} || !Shaped(Current(remote.Here().versions).entries))
    ensures old(remote.faults) <= remote.faults && old(dir.faults) <= dir.faults && old(target.faults) <= target.faults
    ensures Faults(remote, dir, target) == old(Faults(remote, dir, target)) ==> r != Faulty
  {
    hide Newest, Current, Marshal, Loads, Behaviour, Start, Run, PublishedSafe, GraceKept, ContentAddressed, HasChunk,
      WellPathed, SavedAs, ClockAhead, CanEscape, IsOrder, MadeModes, NestedAgree, ModesKept, Restored, Shaped,
      Linkable, Placed, HasAttributes, ChunkNames, ReadableFiles,
      ReadableMarks;
    ghost var trusted := Run(remote.trace) && ContentAddressed(remote.store, hash);
    ghost var s0 := remote.Here();
    if trusted {
      AlwaysSafe(remote);
    }
    r := DownloadFiles(remote, dir, target, hash);
    if r != Done {
      return;
    }
    ghost var v, s, chunks := Current(remote.Here().versions), remote.Here(), target.chunks;
    forall w | Loads(Marshal(v), w) ensures w == v {
      IndexRoundTrip(v, w);
    }
    MarshalIsReadable(v);
    ghost var w, order;
    r, w, order := LinkFiles(target);
    if r == Faulty {
      return;
    }
    LinkableIffShaped(v.entries, chunks.Keys);
    if Shaped(v.entries) {
      ShapedStaysInside(v.entries, chunks.Keys);
    }
    if r == Done && NestedAgree(v.entries.dirs) {
      ModesComeBack(order, v.entries.dirs, old(target.modes), old(target.tree));
    }
    if trusted {
      SafeAsBefore(s0, s);
      AllFetched(s, chunks, hash);
      if r == Done {
        RestoredByLinking(s, v.entries, target.tree, chunks, target.chunks, hash);
      }
    }
  }

  lemma ModesComeBack(order: seq<Path>, dirs: Dirs, modes: map<Names, nat>, tree: Tree)
    requires IsOrder(order, dirs.Keys) && NestedAgree(dirs) && tree == map[]
    ensures ModesKept(modes + MadeModes(order, dirs, tree.Keys), dirs)
  {
    hide MadeModes, NestedAgree, IsOrder, CompsOf;
    AgreeingAreKept(order, dirs);
    assert tree.Keys == {};
  }

  lemma AllFetched(s: State, chunks: map<LocalName, Inode>, hash: Bytes -> Hash)
    requires PublishedSafe(s) && ContentAddressed(s.store, hash)
    requires forall j :: j in s.store ==> HasChunk(chunks, s.store, j, hash)
    ensures var files := Current(s.versions).entries.files;
      forall p :: p in files ==> LocalNameOf(KeyOf(files[p])) in chunks
  {
    hide PublishedSafe, ContentAddressed, HasChunk, LocalNameOf, Current, KeyOf;
    var files := Current(s.versions).entries.files;
    forall p | p in files ensures LocalNameOf(KeyOf(files[p])) in chunks {
      assert KeyOf(files[p]) in IndexChunks(Current(s.versions));
      Fetched(s, chunks, chunks, hash, KeyOf(files[p]));
    }
  }

  lemma SafeAsBefore(s0: State, s: State)
    requires PublishedSafe(s0) && s.store == s0.store && Current(s.versions) == Current(s0.versions)
    ensures PublishedSafe(s)
  {
  }
}
