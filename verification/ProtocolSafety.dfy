// Safety of the protocol over all runs: the published index can always be
// restored, and every superseded one for its grace window.
module ProtocolSafety {
  import opened Wrappers
  import opened ChunkKeys
  import opened Archive
  import opened Protocol

  // ---- the properties ----

  // Every chunk the newest published index refers to is stored, and none of
  // them is marked for deletion.
  ghost predicate PublishedSafe(s: State) {
    var v := Current(s.versions);
    IndexChunks(v) <= s.store.Keys && v.deleted.Keys !! IndexChunks(v)
  }

  predicate WithinGrace(p: Published, now: int) {
    p.until.None? || now <= p.until.value
  }

  // Every version ever published is whole until its grace ends.
  ghost predicate GraceKept(s: State) {
    forall p :: p in s.history && WithinGrace(p, s.now) ==> IndexChunks(p.index) <= s.store.Keys
  }

  // ---- the invariant ----

  // v refers to k or does not let it go before until.
  predicate Protects(v: IndexVal, k: Key, until: int) {
    k in IndexChunks(v) || (k in v.deleted && until <= v.deleted[k])
  }

  ghost predicate ProtectsAll(v: IndexVal, chunks: set<Key>, until: int) {
    forall k :: k in chunks ==> Protects(v, k, until)
  }

  // v stands for every superseded version still in its grace window.
  ghost predicate Honours(v: IndexVal, history: seq<Published>, now: int) {
    forall p :: p in history && p.until.Some? && now <= p.until.value ==>
      ProtectsAll(v, IndexChunks(p.index), p.until.value)
  }

  // Versions no backup has superseded yet are still referred to in full.
  ghost predicate CoversOpen(v: IndexVal, history: seq<Published>) {
    forall p :: p in history && p.until.None? ==> IndexChunks(p.index) <= IndexChunks(v)
  }

  // No grace reaches further than one granted at time t.
  ghost predicate GrantedBy(history: seq<Published>, t: int) {
    forall p :: p in history && p.until.Some? ==> p.until.value <= t + GRACE
  }

  ghost predicate SessionSound(s: State) {
    match s.session
    case Idle => true
    case Backup(start, loaded, built, base, vanished, pass) =>
      && start <= s.now
      && GrantedBy(s.history, start)
      && loaded == Current(s.versions)
      && vanished <= IndexChunks(built) && vanished !! s.store.Keys
      && (pass.Some? ==>
        && pass.value <= s.now
        && IndexChunks(built) <= s.store.Keys + vanished
        && built.deleted.Keys !! IndexChunks(built)
        && ProtectsAll(built, IndexChunks(loaded), start + GRACE)
        && Honours(built, s.history, s.now))
    case Fsck(index, read, listed) =>
      && read <= s.now
      && index.entries == Current(s.versions).entries
      && index.deleted.Keys !! IndexChunks(index)
      && Honours(index, s.history, s.now)
  }

  ghost predicate Inv(s: State) {
    && (forall t :: t in s.versions ==> t <= s.now)
    && PublishedSafe(s)
    && GraceKept(s)
    && GrantedBy(s.history, s.now)
    && CoversOpen(Current(s.versions), s.history)
    && Honours(Current(s.versions), s.history, s.now)
    && SessionSound(s)
  }

  // ---- the newest version ----

  lemma CurrentAfterPublish(versions: Versions, now: int, v: IndexVal)
    requires forall t :: t in versions ==> t <= now
    ensures Current(versions[now := v]) == v
  {
    assert now in versions[now := v];
    assert IsNewest(versions[now := v], Newest(versions[now := v]));
  }

  lemma CurrentAfterSweep(versions: Versions, t: int)
    requires t in versions && exists u :: u in versions && t < u
    ensures Current(versions - {t}) == Current(versions)
  {
    var u :| u in versions && t < u;
    var rest := versions - {t};
    assert u in rest;
    assert Newest(versions) in rest;
    assert IsNewest(rest, Newest(rest)) && IsNewest(versions, Newest(versions));
  }

  lemma SweepKeepsCurrent(versions: Versions, t: int)
    requires t in versions && Outranked(versions, t)
    ensures Current(versions - {t}) == Current(versions)
  {
    var newer: set<int> :| |newer| == KEPT_VERSIONS && newer <= versions.Keys && AllAbove(newer, t);
    var u := ElementOf(newer);
    assert u in versions;
    CurrentAfterSweep(versions, t);
  }

  // ---- steps ----

  lemma TickKeeps(s: State, t: int)
    requires Inv(s) && s.now <= t
    ensures Inv(s.(now := t))
  {
  }

  lemma PutKeeps(s: State, k: Key, obj: Obj)
    requires Inv(s) && Enabled(s, Put(k, obj))
    ensures Inv(Apply(s, Put(k, obj)))
  {
  }

  // The planned marks carry every protection over to the new index.
  lemma PlanProtects(loaded: IndexVal, built: IndexVal, k: Key, until: int, lo: int, hi: int)
    requires PlannedMarks(loaded, IndexChunks(built), built.deleted, lo, hi)
    requires Protects(loaded, k, until) && until <= lo + GRACE
    ensures Protects(built, k, until)
  {
  }

  lemma BeginPassKeeps(s: State, marks: Marks)
    requires Inv(s) && Enabled(s, BeginPass(marks))
    ensures Inv(Apply(s, BeginPass(marks)))
  {
    var built := s.session.built.(deleted := marks);
    assert IndexChunks(built) == IndexChunks(s.session.built);
    hide Protects, Newest, IndexChunks, Clamped;
    forall k, until | Protects(s.session.loaded, k, until) && until <= s.session.start + GRACE
      ensures Protects(built, k, until)
    {
      PlanProtects(s.session.loaded, built, k, until, s.session.start, s.now);
    }
    forall k | k in IndexChunks(s.session.loaded) ensures Protects(s.session.loaded, k, s.session.start + GRACE) {
      ReferenceProtects(s.session.loaded, k, s.session.start + GRACE);
    }
  }

  lemma ReferenceProtects(v: IndexVal, k: Key, until: int)
    requires k in IndexChunks(v)
    ensures Protects(v, k, until)
  {
  }

  lemma RaiseKeeps(s: State, k: Key)
    requires Inv(s) && Enabled(s, RaiseMark(k))
    ensures Inv(Apply(s, RaiseMark(k)))
  {
    hide Newest, Protects, StorageEnd, IndexChunks, Current, PlannedMarks, Outranked, Reconciled, Close;
    var v := PassIndex(s);
    var v' := v.(deleted := v.deleted[k := StorageEnd(s.store, k)]);
    SameFilesSameChunks(v, v');
    forall j, until | Protects(v, j, until) ensures Protects(v', j, until) {
      GreaterMarksProtect(v, v', j, until);
    }
  }

  lemma SameFilesSameChunks(v: IndexVal, v': IndexVal)
    requires v.entries == v'.entries
    ensures IndexChunks(v) == IndexChunks(v')
  {
  }

  lemma GreaterMarksProtect(v: IndexVal, v': IndexVal, k: Key, until: int)
    requires v.entries == v'.entries
    requires k in v.deleted ==> k in v'.deleted && v.deleted[k] <= v'.deleted[k]
    requires Protects(v, k, until)
    ensures Protects(v', k, until)
  {
  }

  // An overdue mark protects nothing that still counts.
  lemma OverdueIsUnprotected(s: State, k: Key)
    requires Inv(s) && InPass(s) && Overdue(s, k) && Timely(s)
    ensures k !in IndexChunks(Current(s.versions)) && k !in IndexChunks(PassIndex(s))
    ensures forall p :: p in s.history && WithinGrace(p, s.now) ==> k !in IndexChunks(p.index)
  {
  }

  lemma DeleteKeeps(s: State, k: Key)
    requires Inv(s) && Enabled(s, Delete(k)) && Timely(s)
    ensures Inv(Apply(s, Delete(k)))
  {
    hide Newest, Protects, StorageEnd, IndexChunks, Current, Overdue, PlannedMarks, Outranked, Reconciled, Close;
    var v := PassIndex(s);
    var v' := v.(deleted := v.deleted - {k});
    OverdueIsUnprotected(s, k);
    SameFilesSameChunks(v, v');
    forall j, until | j != k && Protects(v, j, until) ensures Protects(v', j, until) {
      GreaterMarksProtect(v, v', j, until);
    }
  }

  lemma LoseDeleteKeeps(s: State, k: Key)
    requires Inv(s) && Enabled(s, LoseDelete(k)) && Timely(s)
    ensures Inv(Apply(s, LoseDelete(k)))
  {
  }

  // On a sound archive, reconciliation loses no file and drops no mark of a
  // chunk that still counts.
  lemma ReconcileKeeps(s: State)
    requires Inv(s) && Enabled(s, Reconcile)
    ensures Inv(Apply(s, Reconcile))
  {
    hide Newest, Protects, IndexChunks, Reconciled, Current, PlannedMarks, Outranked, Close, Chunks;
    var v := s.session.index;
    var v' := Reconciled(v, s.store.Keys, s.now);
    SameFilesSameChunks(v, Current(s.versions));
    WholeIsKept(v, s.store.Keys, s.now);
    SameFilesSameChunks(v, v');
    forall j, until | j in s.store && Protects(v, j, until) ensures Protects(v', j, until) {
      GreaterMarksProtect(v, v', j, until);
    }
  }

  lemma WholeIsKept(v: IndexVal, stored: set<Key>, now: int)
    requires IndexChunks(v) <= stored
    ensures Reconciled(v, stored, now).entries == v.entries
    ensures forall k :: k in v.deleted && k in stored ==>
      k in Reconciled(v, stored, now).deleted && Reconciled(v, stored, now).deleted[k] == v.deleted[k]
    ensures v.deleted.Keys !! IndexChunks(v) ==> Reconciled(v, stored, now).deleted.Keys !! IndexChunks(v)
  {
  }

  lemma CloseKeeps(s: State, p: Published)
    requires Inv(s) && s.session.Backup? && p in Close(s.history, s.session.start + GRACE)
    ensures p.until.Some? && p.until.value <= s.session.start + GRACE
    ensures InPass(s) ==> WithinGrace(p, s.now) ==> ProtectsAll(s.session.built, IndexChunks(p.index), p.until.value)
    ensures WithinGrace(p, s.now) ==> IndexChunks(p.index) <= s.store.Keys
  {
  }

  lemma PublishBackupKeeps(s: State)
    requires Inv(s) && s.session.Backup? && Enabled(s, Publish) && s.session.vanished == {}
    ensures Inv(Apply(s, Publish))
  {
    hide Protects, Newest, IndexChunks;
    var s' := Apply(s, Publish);
    CurrentAfterPublish(s.versions, s.now, s.session.built);
    forall p | p in s'.history
      ensures p.until.Some? ==> p.until.value <= s.session.start + GRACE
      ensures p.until.None? ==> p.index == s.session.built
      ensures p.until.Some? && WithinGrace(p, s.now) ==>
        ProtectsAll(s.session.built, IndexChunks(p.index), p.until.value)
      ensures WithinGrace(p, s.now) ==> IndexChunks(p.index) <= s.store.Keys
    {
      if p in Close(s.history, s.session.start + GRACE) {
        CloseKeeps(s, p);
      }
    }
  }

  lemma PublishFsckKeeps(s: State)
    requires Inv(s) && s.session.Fsck? && Enabled(s, Publish)
    ensures Inv(Apply(s, Publish))
  {
    hide Protects, Newest;
    CurrentAfterPublish(s.versions, s.now, s.session.index);
  }

  lemma StepKeeps(s: State, step: Step)
    requires Inv(s) && Timely(s) && Enabled(s, step) && !PublishesHole(s, Apply(s, step))
    ensures Inv(Apply(s, step))
  {
    hide Newest, Protects, IndexChunks;
    match step
    case Tick(t) => TickKeeps(s, t);
    case BeginBackup(entries) =>
    case Put(k, obj) => PutKeeps(s, k, obj);
    case Vanish(k) =>
    case BeginPass(marks) => BeginPassKeeps(s, marks);
    case RaiseMark(k) => RaiseKeeps(s, k);
    case Delete(k) => DeleteKeeps(s, k);
    case LoseDelete(k) => LoseDeleteKeeps(s, k);
    case BeginFsck =>
    case Reconcile => ReconcileKeeps(s);
    case Publish =>
      if s.session.Backup? {
        PublishBackupKeeps(s);
      } else {
        PublishFsckKeeps(s);
      }
    case Sweep(t) => SweepKeeps(s, t);
    case Stop =>
  }

  lemma SweepKeeps(s: State, t: int)
    requires Inv(s) && Enabled(s, Sweep(t))
    ensures Inv(Apply(s, Sweep(t)))
  {
    SweepKeepsCurrent(s.versions, t);
  }

  // ---- over whole runs ----

  ghost function OpeningHistory(versions: Versions): seq<Published> {
    if versions.Keys == {} then [] else [Published(Current(versions), None)]
  }

  // An archive as first met: its newest version, if any, is safe.
  ghost predicate Start(s: State) {
    && (forall t :: t in s.versions ==> t <= s.now)
    && PublishedSafe(s)
    && s.history == OpeningHistory(s.versions)
    && s.session.Idle?
  }

  // An empty bucket, or one that holds stray chunks only, is such a start.
  lemma EmptyStart(store: Store, now: int)
    ensures Start(State(store, map[], now, [], Idle))
  {
  }

  // Every pass is in time, and no backup publishes over a file that vanished;
  // one that fails before it publishes may have lost any number.
  ghost predicate Run(b: seq<State>) {
    && Behaviour(b) && Start(b[0])
    && (forall i :: 0 <= i < |b| ==> Timely(b[i]))
    && (forall i :: 0 < i < |b| ==> !PublishesHole(b[i - 1], b[i]))
  }

  lemma {:induction false} InvAlways(b: seq<State>, i: nat)
    requires Run(b) && i < |b|
    ensures Inv(b[i])
  {
    hide Inv, Enabled, Apply, Timely;
    if i == 0 {
      StartKeeps(b[0]);
    } else {
      InvAlways(b, i - 1);
      assert Next(b[i - 1], b[i]);
      var step :| Takes(b[i - 1], step, b[i]);
      StepKeeps(b[i - 1], step);
    }
  }

  lemma StartKeeps(s: State)
    requires Start(s)
    ensures Inv(s)
  {
  }

  // At every point of every run, wherever remote calls failed or processes
  // died, the newest published index is complete.
  lemma PublishedAlwaysSafe(b: seq<State>, i: nat)
    requires Run(b) && i < |b|
    ensures PublishedSafe(b[i])
  {
    InvAlways(b, i);
  }

  // And so is every version ever published, until 7 days after the start of
  // the backup that superseded it.
  lemma GraceAlwaysKept(b: seq<State>, i: nat)
    requires Run(b) && i < |b|
    ensures GraceKept(b[i])
  {
    InvAlways(b, i);
  }

  // Whatever leaves the store at any point of a run leaves by the deletion
  // pass, and is a chunk of neither the index loaded nor the index built.
  lemma PassSparesLiveChunks(b: seq<State>, i: nat, k: Key)
    requires Run(b) && i + 1 < |b| && k in b[i].store && k !in b[i + 1].store
    ensures InPass(b[i])
    ensures k !in IndexChunks(Current(b[i].versions)) && k !in IndexChunks(PassIndex(b[i]))
    ensures b[i].session.Backup? ==> k !in IndexChunks(b[i].session.loaded)
  {
    hide Enabled, Apply, Newest, IndexChunks, Protects;
    InvAlways(b, i);
    assert Next(b[i + 1 - 1], b[i + 1]);
    var step :| Takes(b[i], step, b[i + 1]);
    OnlyDeletesRemove(b[i], step, k);
    OverdueIsUnprotected(b[i], k);
  }

  lemma OnlyDeletesRemove(s: State, step: Step, k: Key)
    requires Enabled(s, step) && k in s.store && k !in Apply(s, step).store
    ensures InPass(s) && Overdue(s, k) && (step == Delete(k) || step == LoseDelete(k))
  {
    hide Newest, Outranked, IndexChunks, Current, Close, Reconciled, PlannedMarks;
  }

  // ---- what the two premises of a run are worth ----

  // Whatever the run was, a backup that publishes at its end is complete
  // exactly if no file vanished under it.
  lemma CompleteIffNothingVanished(b: seq<State>, s': State)
    requires Run(b) && b[|b| - 1].session.Backup? && Takes(b[|b| - 1], Publish, s')
    ensures PublishedSafe(s') <==> b[|b| - 1].session.vanished == {}
  {
    hide Start, Timely, Newest, Protects;
    var s := b[|b| - 1];
    InvAlways(b, |b| - 1);
    CurrentAfterPublish(s.versions, s.now, s.session.built);
  }

  // Ways on from s that stay in the deletion pass of the backup in s.
  ghost predicate PassGoesOn(s: State, c: seq<State>) {
    && Behaviour(c) && c[0] == s
    && forall i :: 0 <= i < |c| ==> c[i].session.Backup? && InPass(c[i])
  }

  // The backup drops a chunk that is past its minimum storage.
  ghost predicate DropsExpired(s: State)
    requires s.session.Backup? && InPass(s)
  {
    exists k ::
      k in IndexChunks(s.session.loaded) - IndexChunks(s.session.built) && StorageEnd(s.store, k) < PassTime(s)
  }

  // The pass at t cannot reach the published index: all of it is stored, and
  // each chunk is unmarked, not due or held by its minimum storage.
  ghost predicate OutOfReach(s: State, t: int) {
    && (forall u :: u in s.versions ==> u <= s.now)
    && s.session.Backup? && InPass(s) && PassTime(s) == t
    && Current(s.versions).deleted.Keys !! IndexChunks(Current(s.versions))
    && IndexChunks(Current(s.versions)) <= s.store.Keys
    && forall k :: k in IndexChunks(Current(s.versions)) && k in s.session.built.deleted ==>
      t <= s.session.built.deleted[k] || t <= StorageEnd(s.store, k)
  }

  lemma OutOfReachBegins(s: State, marks: Marks)
    requires Inv(s) && Enabled(s, BeginPass(marks))
    requires var s' := Apply(s, BeginPass(marks)); Timely(s') || !DropsExpired(s')
    ensures OutOfReach(Apply(s, BeginPass(marks)), s.now)
  {
    hide Newest, IndexChunks, Protects, Current, Clamped;
    SameFilesSameChunks(s.session.built, s.session.built.(deleted := marks));
  }

  lemma OutOfReachStays(s: State, step: Step, t: int)
    requires OutOfReach(s, t) && Enabled(s, step)
    requires Apply(s, step).session.Backup? && InPass(Apply(s, step))
    ensures OutOfReach(Apply(s, step), t)
  {
    hide Newest, IndexChunks, Current, Outranked, PlannedMarks, Reconciled, Close;
    if step.Sweep? {
      SweepKeepsCurrent(s.versions, step.t);
    }
  }

  lemma {:induction false} StaysOutOfReach(c: seq<State>, i: nat, t: int)
    requires c != [] && PassGoesOn(c[0], c) && OutOfReach(c[0], t) && i < |c|
    ensures OutOfReach(c[i], t)
  {
    hide OutOfReach, Enabled, Apply;
    if i > 0 {
      StaysOutOfReach(c, i - 1, t);
      assert Next(c[i - 1], c[i]);
      var step :| Takes(c[i - 1], step, c[i]);
      OutOfReachStays(c[i - 1], step, t);
    }
  }

  // Whatever the trusted run before it was, a deletion pass that begins now
  // can lose a chunk of the published index on some way on exactly if it is
  // late, more than 7 days after its backup started, and the backup drops a
  // chunk that is past its minimum storage.
  lemma PassReachesPublishedIff(b: seq<State>, marks: Marks, s: State)
    requires Run(b) && Takes(b[|b| - 1], BeginPass(marks), s)
    ensures (exists c :: PassGoesOn(s, c) && !PublishedSafe(c[|c| - 1])) <==> !Timely(s) && DropsExpired(s)
  {
    hide Inv, Start, PublishesHole, Enabled, Apply, Newest, IndexChunks, DropsExpired, OutOfReach, PublishedSafe;
    InvAlways(b, |b| - 1);
    if Timely(s) || !DropsExpired(s) {
      OutOfReachBegins(b[|b| - 1], marks);
      forall c | PassGoesOn(s, c) ensures PublishedSafe(c[|c| - 1]) {
        StaysOutOfReach(c, |c| - 1, b[|b| - 1].now);
        OutOfReachIsSafe(c[|c| - 1], b[|b| - 1].now);
      }
    } else {
      var c := LatePassReaches(b[|b| - 1], marks);
    }
  }

  lemma OutOfReachIsSafe(s: State, t: int)
    requires OutOfReach(s, t)
    ensures PublishedSafe(s)
  {
  }

  lemma LatePassReaches(s: State, marks: Marks) returns (c: seq<State>)
    requires Inv(s) && Enabled(s, BeginPass(marks))
    requires var s' := Apply(s, BeginPass(marks)); !Timely(s') && DropsExpired(s')
    ensures PassGoesOn(Apply(s, BeginPass(marks)), c) && !PublishedSafe(c[|c| - 1])
  {
    hide Newest, IndexChunks, Protects, Current;
    var s' := Apply(s, BeginPass(marks));
    SameFilesSameChunks(s.session.built, s'.session.built);
    var k :| k in IndexChunks(s'.session.loaded) - IndexChunks(s'.session.built)
      && StorageEnd(s'.store, k) < PassTime(s');
    assert Takes(s', Delete(k), Apply(s', Delete(k)));
    c := [s', Apply(s', Delete(k))];
  }
}
