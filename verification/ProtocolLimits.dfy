// Runs at the edge: two that break the published index, where a premise of the
// safety theorems fails, and one that leaves a version too many.
module ProtocolLimits {
  import opened Wrappers
  import opened ChunkKeys
  import opened Archive
  import opened Protocol
  import opened ProtocolSafety
  import opened Utf8
  import opened VersionList

  const NAME: Path := [0x61]
  const FILE := FileInfo(1, 420, 0, ZERO_HASH)
  const KEY: Key := ChunkKey(1, ZERO_HASH)
  const ONE_FILE := Entries(map[NAME := FILE], map[], map[])
  const ONE_INDEX := IndexVal(ONE_FILE, map[])

  lemma OneChunk()
    ensures IndexChunks(ONE_INDEX) == {KEY}
    ensures IndexChunks(EMPTY_INDEX) == {}
  {
    assert NAME in ONE_INDEX.entries.files;
  }

  lemma OneVersion(v: IndexVal, t: int)
    ensures Current(map[t := v]) == v
  {
    CurrentAfterPublish(map[], t, v);
    assert map[][t := v] == map[t := v];
  }

  lemma Chain(s0: State, s1: State, s2: State, s3: State, s4: State, a: Step, b: Step, c: Step, d: Step)
    requires Takes(s0, a, s1) && Takes(s1, b, s2) && Takes(s2, c, s3) && Takes(s3, d, s4)
    ensures Behaviour([s0, s1, s2, s3, s4])
  {
    hide Takes;
  }

  // A backup that drops a file and takes more than 7 days to reach its
  // deletion pass deletes a chunk of the index that is still published.
  lemma LatePassLosesPublishedChunk() returns (b: seq<State>)
    ensures Behaviour(b) && Start(b[0])
    ensures forall s :: s in b && s.session.Backup? ==> s.session.vanished == {}
    ensures !PublishedSafe(b[|b| - 1])
  {
    hide Newest, Current, IndexChunks, Behaviour, Outranked;
    OneChunk();
    OneVersion(ONE_INDEX, 0);
    var begun := 200 * DAY;
    var stored: Store := map[KEY := Obj([], Some(0))];
    var marks: Marks := map[KEY := begun + GRACE];
    var s0 := State(stored, map[0 := ONE_INDEX], begun, [Published(ONE_INDEX, None)], Idle);
    var s1 := s0.(session := Backup(begun, ONE_INDEX, EMPTY_INDEX, {KEY}, {}, None));
    var s2 := s1.(now := begun + 8 * DAY);
    var s3 := s2.(session := Backup(begun, ONE_INDEX, EMPTY_INDEX.(deleted := marks), {KEY}, {}, Some(s2.now)));
    var s4 := s3.(store := map[], session := s3.session.(built := EMPTY_INDEX));
    SameFilesSameChunks(EMPTY_INDEX.(deleted := marks), EMPTY_INDEX);
    LateStart(s0);
    assert stored.Keys == {KEY} && stored - {KEY} == map[] && marks - {KEY} == map[];
    assert Takes(s0, BeginBackup(NO_ENTRIES), s1);
    assert Takes(s1, Tick(begun + 8 * DAY), s2);
    assert Takes(s2, BeginPass(marks), s3);
    assert Takes(s3, Delete(KEY), s4);
    b := [s0, s1, s2, s3, s4];
    Chain(s0, s1, s2, s3, s4, BeginBackup(NO_ENTRIES), Tick(begun + 8 * DAY), BeginPass(marks), Delete(KEY));
    assert KEY in IndexChunks(Current(s4.versions)) && KEY !in s4.store;
  }

  lemma LateStart(s: State)
    requires KEY in s.store && s.versions == map[0 := ONE_INDEX] && 0 <= s.now
    requires s.history == [Published(ONE_INDEX, None)] && s.session.Idle?
    ensures Start(s)
  {
    hide IndexChunks, Newest;
    OneChunk();
    OneVersion(ONE_INDEX, 0);
    assert 0 in s.versions;
  }

  // A backup whose file is gone when it comes to be uploaded publishes an
  // index with a chunk that was never stored.
  lemma VanishedFilePublishesHole() returns (b: seq<State>)
    ensures Behaviour(b) && Start(b[0])
    ensures forall s :: s in b ==> Timely(s)
    ensures !PublishedSafe(b[|b| - 1])
  {
    hide Newest, Current, IndexChunks, Behaviour, Outranked;
    OneChunk();
    OneVersion(ONE_INDEX, DAY);
    var s0 := State(map[], map[], DAY, [], Idle);
    NothingPublished(s0);
    var s1 := s0.(session := Backup(DAY, EMPTY_INDEX, ONE_INDEX, {}, {}, None));
    var s2 := s1.(session := s1.session.(vanished := {KEY}));
    var s3 := s2.(session := s2.session.(pass := Some(DAY)));
    var s4 := State(map[], map[DAY := ONE_INDEX], DAY, [Published(ONE_INDEX, None)], Idle);
    assert s0.store.Keys == {} && map[][DAY := ONE_INDEX] == map[DAY := ONE_INDEX];
    assert Takes(s0, BeginBackup(ONE_FILE), s1);
    assert Takes(s1, Vanish(KEY), s2);
    assert Takes(s2, BeginPass(map[]), s3);
    assert Takes(s3, Publish, s4);
    b := [s0, s1, s2, s3, s4];
    Chain(s0, s1, s2, s3, s4, BeginBackup(ONE_FILE), Vanish(KEY), BeginPass(map[]), Publish);
    assert KEY in IndexChunks(Current(s4.versions)) && KEY !in s4.store;
  }

  lemma NothingPublished(s: State)
    requires s.versions == map[] && s.history == [] && s.session.Idle?
    ensures Current(s.versions) == EMPTY_INDEX && Start(s)
  {
    hide Newest;
  }

  // ---- more than 30 versions ----

  const BARE_DIR := Entries(map[], map[[SLASH] := DirInfo(0)], map[])

  function Seconds(n: nat): (s: set<int>)
    ensures |s| == n && forall t :: t in s <==> 0 <= t < n
  {
    if n == 0 then {} else Seconds(n - 1) + {n - 1}
  }

  // A backup with something new to publish, where 30 versions are stored and
  // none is left for the sweep to take: 31 are stored afterwards.
  lemma ThirtyOneVersionsStored() returns (b: seq<State>)
    ensures Run(b) && |b[0].versions| == KEPT_VERSIONS
    ensures forall t :: t in b[0].versions ==> !Outranked(b[0].versions, t)
    ensures b[|b| - 1].session.Idle? && |b[|b| - 1].versions| == KEPT_VERSIONS + 1
  {
    hide Newest, Current, IndexChunks, Outranked, Seconds, Run, Start;
    var versions: Versions := map t | t in Seconds(KEPT_VERSIONS) :: EMPTY_INDEX;
    assert versions.Keys == Seconds(KEPT_VERSIONS);
    OnlyEmpty(versions);
    var built := IndexVal(BARE_DIR, map[]);
    assert IndexChunks(built) == {} && IndexChunks(EMPTY_INDEX) == {} by {
      NoFilesNoChunks(built);
      NoFilesNoChunks(EMPTY_INDEX);
    }
    var s0 := State(map[], versions, DAY, [Published(EMPTY_INDEX, None)], Idle);
    var s1 := s0.(session := Backup(DAY, EMPTY_INDEX, built, {}, {}, None));
    var s2 := s1.(session := s1.session.(pass := Some(DAY)));
    var closed := Close(s2.history, DAY + GRACE);
    var s3 := State(map[], versions[DAY := built], DAY, closed + [Published(built, None)], Idle);
    assert s0.store.Keys == {};
    assert Takes(s0, BeginBackup(BARE_DIR), s1);
    assert Takes(s1, BeginPass(map[]), s2);
    assert Takes(s2, Publish, s3);
    b := [s0, s1, s2, s3];
    PublishedEmpty(s0);
    OneRun(s0, s1, s2, s3, BeginBackup(BARE_DIR), BeginPass(map[]));
    assert s3.versions.Keys == Seconds(KEPT_VERSIONS) + {DAY} && DAY !in Seconds(KEPT_VERSIONS);
    forall t | t in versions ensures !Outranked(versions, t) {
      FullHouse(versions, t);
    }
  }

  lemma OneRun(s0: State, s1: State, s2: State, s3: State, a: Step, b: Step)
    requires Takes(s0, a, s1) && Takes(s1, b, s2) && Takes(s2, Publish, s3)
    requires Start(s0) && s2.session.Backup? && s2.session.vanished == {}
    requires Timely(s0) && Timely(s1) && Timely(s2) && Timely(s3)
    requires a != Publish && b != Publish && s0.session.Idle? && Uploading(s1)
    ensures Run([s0, s1, s2, s3])
  {
    hide Start, Timely, Apply, Newest;
    var r := [s0, s1, s2, s3];
    assert Next(s0, s1) && Next(s1, s2) && Next(s2, s3);
    forall i | 0 < i < |r| ensures !PublishesHole(r[i - 1], r[i]) {
    }
  }

  lemma PublishedEmpty(s: State)
    requires Current(s.versions) == EMPTY_INDEX && s.versions.Keys != {} && forall t :: t in s.versions ==> t <= s.now
    requires s.history == [Published(EMPTY_INDEX, None)] && s.session.Idle?
    ensures Start(s)
  {
    hide Newest, Current;
  }

  lemma NoFilesNoChunks(v: IndexVal)
    requires v.entries.files == map[]
    ensures IndexChunks(v) == {}
  {
  }

  lemma OnlyEmpty(versions: Versions)
    requires forall t :: t in versions ==> versions[t] == EMPTY_INDEX
    ensures Current(versions) == EMPTY_INDEX
  {
  }

  lemma FullHouse(versions: Versions, t: int)
    requires |versions| == KEPT_VERSIONS && t in versions
    ensures !Outranked(versions, t)
  {
    assert NewestThirty(versions, versions);
    NewestThirtyIff(versions, versions, t);
  }
}
