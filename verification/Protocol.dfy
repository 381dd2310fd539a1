// The archive protocol as a state machine: one step per remote effect, clock
// advance or decision that the code takes. The methods of Remote, Backup and
// Fsck are verified to move only by these steps.
module Protocol {
  import opened Utf8
  import opened Wrappers
  import opened ChunkKeys
  import opened Archive

  const DAY := 86400
  const GRACE := 7 * DAY
  const MIN_STORAGE := 180 * DAY
  const YEAR := 31556952
  const CLAMP_AFTER := 3 * YEAR
  const FOREVER := 10 * YEAR
  const KEPT_VERSIONS := 30

  // A stored chunk; modified is its Last-Modified header where that parses.
  datatype Obj = Obj(content: Bytes, modified: Option<int>)
  type Store = map<Key, Obj>
  type Versions = map<int, IndexVal>

  // The end of the minimum storage duration, 0 where nothing is known.
  function StorageEnd(store: Store, k: Key): int {
    if k in store && store[k].modified.Some? then store[k].modified.value + MIN_STORAGE else 0
  }

  // ---- published versions ----

  ghost predicate IsNewest(versions: Versions, t: int) {
    t in versions && forall u :: u in versions ==> u <= t
  }

  lemma {:induction false} NewestExists(versions: Versions)
    requires versions.Keys != {}
    ensures exists t :: IsNewest(versions, t)
  {
    var t := ElementOf(versions.Keys);
    var rest := versions - {t};
    if rest.Keys == {} {
      assert forall u :: u in versions ==> u == t by {
        forall u | u in versions ensures u == t { assert u !in rest.Keys; }
      }
      assert IsNewest(versions, t);
    } else {
      NewestExists(rest);
      var r :| IsNewest(rest, r);
      assert forall u :: u in versions ==> u == t || u in rest;
      assert IsNewest(versions, if t > r then t else r);
    }
  }

  ghost function Newest(versions: Versions): (t: int)
    requires versions.Keys != {}
    ensures IsNewest(versions, t)
  {
    NewestExists(versions);
    var t :| IsNewest(versions, t);
    t
  }

  // What a client that loads the newest version works from.
  ghost function Current(versions: Versions): IndexVal {
    if versions.Keys == {} then EMPTY_INDEX else versions[Newest(versions)]
  }

  predicate AllAbove(newer: set<int>, t: int) {
    forall u :: u in newer ==> t < u
  }

  // At least 30 versions are newer than t.
  ghost predicate Outranked(versions: Versions, t: int) {
    exists newer: set<int> :: |newer| == KEPT_VERSIONS && newer <= versions.Keys && AllAbove(newer, t)
  }

  // ---- state ----

  // A version that was published. It stays open until a backup supersedes it;
  // until is then 7 days after that backup's start.
  datatype Published = Published(index: IndexVal, until: Option<int>)

  // What the one running process holds in memory. For a backup: when it took
  // its clock, the index it loaded, the one it builds, the chunks stored when
  // it began, those whose file was gone at upload, and the time its deletion
  // pass reads once it runs.
  datatype Session =
    | Idle
    | Backup(start: int, loaded: IndexVal, built: IndexVal, base: set<Key>, vanished: set<Key>, pass: Option<int>)
    | Fsck(index: IndexVal, read: int, listed: bool)

  datatype State = State(store: Store, versions: Versions, now: int, history: seq<Published>, session: Session)

  datatype Step =
    | Tick(t: int)
    | BeginBackup(entries: Entries)
    | Put(k: Key, obj: Obj)
    | Vanish(k: Key)
    | BeginPass(marks: Marks)
    | RaiseMark(k: Key)
    | Delete(k: Key)
    | LoseDelete(k: Key) // the delete took effect but reported failure
    | BeginFsck
    | Reconcile
    | Publish
    | Sweep(t: int)
    | Stop // the run ends or dies

  predicate Uploading(s: State) {
    s.session.Backup? && s.session.pass.None?
  }

  predicate InPass(s: State) {
    (s.session.Backup? && s.session.pass.Some?) || (s.session.Fsck? && !s.session.listed)
  }

  function PassTime(s: State): int
    requires InPass(s)
  {
    if s.session.Backup? then s.session.pass.value else s.session.read
  }

  function PassIndex(s: State): IndexVal
    requires InPass(s)
  {
    if s.session.Backup? then s.session.built else s.session.index
  }

  function SetMarks(session: Session, marks: Marks): Session {
    match session
    case Idle => Idle
    case Backup(_, _, built, _, _, _) => session.(built := built.(deleted := marks))
    case Fsck(index, _, _) => session.(index := index.(deleted := marks))
  }

  function ToUpload(s: State): set<Key>
    requires s.session.Backup?
  {
    IndexChunks(s.session.built) - IndexChunks(s.session.loaded)
  }

  // A mark more than three years ahead is cut back to seven days. The code
  // reads the clock anew for every mark, somewhere between lo and hi.
  predicate Clamped(v: int, m: int, lo: int, hi: int) {
    (m == v && v <= hi + CLAMP_AFTER) || (m == lo + GRACE && v > lo + CLAMP_AFTER)
  }

  // The marks of the new index when the deletion pass begins.
  ghost predicate PlannedMarks(loaded: IndexVal, kept: set<Key>, marks: Marks, lo: int, hi: int) {
    && marks.Keys == (loaded.deleted.Keys + IndexChunks(loaded)) - kept
    && (forall k :: k in marks && k in IndexChunks(loaded) ==> marks[k] == lo + GRACE)
    && (forall k :: k in marks && k !in IndexChunks(loaded) ==> Clamped(loaded.deleted[k], marks[k], lo, hi))
  }

  predicate Overdue(s: State, k: Key)
    requires InPass(s)
  {
    k in PassIndex(s).deleted && PassIndex(s).deleted[k] < PassTime(s)
  }

  // fsckRemote's reconciliation of an index with a listing of the store.
  function Reconciled(v: IndexVal, stored: set<Key>, now: int): IndexVal {
    var files := map p | p in v.entries.files && KeyOf(v.entries.files[p]) in stored :: v.entries.files[p];
    var kept := map k | k in v.deleted && k in stored :: v.deleted[k];
    var found := map k | k in stored && k !in Chunks(files) && k !in kept :: now + FOREVER;
    IndexVal(v.entries.(files := files), kept + found)
  }

  function Close(history: seq<Published>, until: int): (r: seq<Published>)
    ensures |r| == |history|
  {
    seq(|history|, i requires 0 <= i < |history| =>
      if history[i].until.None? then history[i].(until := Some(until)) else history[i])
  }

  ghost predicate Enabled(s: State, step: Step) {
    match step
    case Tick(t) => s.now <= t
    case BeginBackup(_) => s.session.Idle?
    case Put(k, obj) =>
      && Uploading(s) && k in ToUpload(s) && k !in s.store && k !in s.session.vanished
      && (obj.modified.Some? ==> obj.modified.value <= s.now)
    case Vanish(k) => Uploading(s) && k in ToUpload(s) && k !in s.store
    case BeginPass(marks) =>
      && Uploading(s)
      && ToUpload(s) <= s.store.Keys + s.session.vanished
      && PlannedMarks(s.session.loaded, IndexChunks(s.session.built), marks, s.session.start, s.now)
    case RaiseMark(k) =>
      InPass(s) && Overdue(s, k) && PassIndex(s).deleted[k] < StorageEnd(s.store, k)
    case Delete(k) => InPass(s) && Overdue(s, k) && StorageEnd(s.store, k) < PassTime(s)
    case LoseDelete(k) => InPass(s) && Overdue(s, k) && StorageEnd(s.store, k) < PassTime(s)
    case BeginFsck => s.session.Idle? && s.versions.Keys != {}
    case Reconcile => s.session.Fsck? && !s.session.listed
    case Publish =>
      || (s.session.Backup? && InPass(s) && forall k :: k in s.session.built.deleted ==> !Overdue(s, k))
      || (s.session.Fsck? && s.session.listed)
    case Sweep(t) => t in s.versions && Outranked(s.versions, t)
    case Stop => true
  }

  ghost function Apply(s: State, step: Step): State
    requires Enabled(s, step)
  {
    match step
    case Tick(t) => s.(now := t)
    case BeginBackup(entries) =>
      s.(session := Backup(s.now, Current(s.versions), IndexVal(entries, map[]), s.store.Keys, {}, None))
    case Put(k, obj) => s.(store := s.store[k := obj])
    case Vanish(k) => s.(session := s.session.(vanished := s.session.vanished + {k}))
    case BeginPass(marks) => s.(session := SetMarks(s.session, marks).(pass := Some(s.now)))
    case RaiseMark(k) => s.(session := SetMarks(s.session, PassIndex(s).deleted[k := StorageEnd(s.store, k)]))
    case Delete(k) => s.(store := s.store - {k}, session := SetMarks(s.session, PassIndex(s).deleted - {k}))
    case LoseDelete(k) => s.(store := s.store - {k})
    case BeginFsck => s.(session := Fsck(Current(s.versions), s.now, false))
    case Reconcile =>
      s.(session := Fsck(Reconciled(s.session.index, s.store.Keys, s.now), s.session.read, true))
    case Publish =>
      if s.session.Backup? then
        s.(versions := s.versions[s.now := s.session.built],
           history := Close(s.history, s.session.start + GRACE) + [Published(s.session.built, None)],
           session := Idle)
      else
        s.(versions := s.versions[s.now := s.session.index],
           history := s.history + [Published(s.session.index, None)],
           session := Idle)
    case Sweep(t) => s.(versions := s.versions - {t})
    case Stop => s.(session := Idle)
  }

  ghost predicate Takes(s: State, step: Step, s': State) {
    Enabled(s, step) && s' == Apply(s, step)
  }

  ghost predicate Next(s: State, s': State) {
    exists step :: Takes(s, step, s')
  }

  // Any run of the system from any state, with any number of backups and
  // fscks that finish, fail or die anywhere.
  ghost predicate Behaviour(b: seq<State>) {
    b != [] && forall i :: 0 < i < |b| ==> Next(b[i - 1], b[i])
  }

  // A backup reaches its deletion pass within the grace it grants.
  predicate Timely(s: State) {
    s.session.Backup? && s.session.pass.Some? ==> s.session.pass.value <= s.session.start + GRACE
  }

  // A backup publishes although a file was gone when it came to be uploaded.
  ghost predicate PublishesHole(s: State, s': State) {
    s.session.Backup? && s.session.vanished != {} && Takes(s, Publish, s')
  }
}
