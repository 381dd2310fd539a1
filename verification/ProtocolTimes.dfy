// What the times of the protocol come to over whole runs, in seconds, and said
// without the bookkeeping of the state machine.
module ProtocolTimes {
  import opened Wrappers
  import opened ChunkKeys
  import opened Archive
  import opened Protocol
  import opened ProtocolSafety
  import opened ProtocolAccounts
  import opened VersionList

  const SEVEN_DAYS := 604800
  const HALF_YEAR := 15552000 // 180 days
  const THREE_YEARS := 94670856
  const TEN_YEARS := 315569520

  // ---- seven days of grace ----

  ghost predicate BackupPublishes(s: State, s': State) {
    s.session.Backup? && Takes(s, Publish, s')
  }

  // The newest version is still open in the history.
  ghost predicate NewestIsOpen(s: State) {
    && (forall t :: t in s.versions ==> t <= s.now)
    && (s.versions.Keys != {} ==> Published(Current(s.versions), None) in s.history)
  }

  lemma NewestStaysOpen(s: State, step: Step)
    requires NewestIsOpen(s) && Enabled(s, step)
    ensures NewestIsOpen(Apply(s, step))
  {
    hide Newest, IndexChunks, PlannedMarks, Reconciled, Current, Outranked;
    match step
    case Publish =>
      CurrentAfterPublish(s.versions, s.now, if s.session.Backup? then s.session.built else s.session.index);
    case Sweep(t) => SweepKeepsCurrent(s.versions, t);
    case _ =>
  }

  lemma {:induction false} NewestAlwaysOpen(b: seq<State>, i: nat)
    requires Run(b) && i < |b|
    ensures NewestIsOpen(b[i])
  {
    hide NewestIsOpen, Enabled, Apply;
    if i == 0 {
      StartIsOpen(b[0]);
    } else {
      NewestAlwaysOpen(b, i - 1);
      assert Next(b[i - 1], b[i]);
      var step :| Takes(b[i - 1], step, b[i]);
      NewestStaysOpen(b[i - 1], step);
    }
  }

  lemma StartIsOpen(s: State)
    requires Start(s)
    ensures NewestIsOpen(s)
  {
  }

  // A version in the history stays there, and only a backup that publishes
  // closes it.
  lemma HistoryStep(s: State, step: Step, v: IndexVal, until: Option<int>)
    requires Enabled(s, step) && Published(v, until) in s.history
    ensures var s' := Apply(s, step);
      if until.None? && s.session.Backup? && step == Publish then
        Published(v, Some(s.session.start + GRACE)) in s'.history
      else Published(v, until) in s'.history
  {
    hide Newest, IndexChunks, PlannedMarks, Reconciled, Current, Outranked;
    var h :| 0 <= h < |s.history| && s.history[h] == Published(v, until);
    if step == Publish && s.session.Backup? {
      assert Apply(s, step).history[h] == Close(s.history, s.session.start + GRACE)[h];
    }
    if step == Publish && s.session.Fsck? {
      assert Apply(s, step).history[h] == s.history[h];
    }
  }

  lemma {:induction false} StaysInHistory(b: seq<State>, j: nat, i: nat, v: IndexVal, until: Option<int>)
    requires Behaviour(b) && j <= i < |b| && Published(v, until) in b[j].history
    requires until.None? ==> forall l :: j <= l < i ==> !BackupPublishes(b[l], b[l + 1])
    ensures Published(v, until) in b[i].history
  {
    hide Enabled, Apply;
    if j < i {
      StaysInHistory(b, j, i - 1, v, until);
      assert Next(b[i - 1], b[i]);
      var step :| Takes(b[i - 1], step, b[i]);
      HistoryStep(b[i - 1], step, v, until);
      assert until.None? ==> !BackupPublishes(b[i - 1], b[i - 1 + 1]);
    }
  }

  // In every trusted run, the index that is the newest at some point has all
  // its chunks stored until a backup publishes, and from then on until seven
  // days after that backup began.
  lemma NewestStaysComplete(b: seq<State>, j: nat, m: nat, i: nat)
    requires Run(b) && j <= m <= i < |b|
    requires forall l :: j <= l < m ==> !BackupPublishes(b[l], b[l + 1])
    requires m < i ==> BackupPublishes(b[m], b[m + 1]) && b[i].now <= b[m].session.start + SEVEN_DAYS
    ensures IndexChunks(Current(b[j].versions)) <= b[i].store.Keys
  {
    hide Newest, IndexChunks, Enabled, Apply, Start, Timely, PublishesHole;
    var v := Current(b[j].versions);
    if b[j].versions.Keys == {} {
      NothingToKeep();
    } else {
      NewestAlwaysOpen(b, j);
      StaysInHistory(b, j, m, v, None);
      GraceAlwaysKept(b, i);
      if m < i {
        HistoryStep(b[m], Publish, v, None);
        StaysInHistory(b, m + 1, i, v, Some(b[m].session.start + GRACE));
      }
    }
  }

  lemma NothingToKeep()
    ensures IndexChunks(EMPTY_INDEX) == {}
  {
  }

  // ---- the marks a backup publishes ----

  // Of the planned marks, those the pass at t has not reached are unchanged,
  // and nothing is marked that was not planned.
  ghost predicate KeepsPlan(planned: Marks, marks: Marks, t: int) {
    && marks.Keys <= planned.Keys
    && forall k :: k in planned && t <= planned[k] ==> k in marks && marks[k] == planned[k]
  }

  ghost predicate PlanKept(s: State) {
    s.session.Backup? && InPass(s) ==>
      exists planned ::
        && PlannedMarks(s.session.loaded, IndexChunks(s.session.built), planned, s.session.start, PassTime(s))
        && KeepsPlan(planned, s.session.built.deleted, PassTime(s))
  }

  lemma PlanIsKept(s: State, step: Step)
    requires PlanKept(s) && Enabled(s, step)
    ensures PlanKept(Apply(s, step))
  {
    hide Newest, IndexChunks, PlannedMarks, Reconciled, Current, Outranked, Close;
    var s' := Apply(s, step);
    if s'.session.Backup? && InPass(s') {
      SameFilesSameChunks(s.session.built, s'.session.built);
      if step.BeginPass? {
        var planned := step.marks;
        assert PlannedMarks(s'.session.loaded, IndexChunks(s'.session.built), planned, s'.session.start, PassTime(s'))
          && KeepsPlan(planned, s'.session.built.deleted, PassTime(s'));
      } else {
        var planned :| PlannedMarks(s.session.loaded, IndexChunks(s.session.built), planned, s.session.start,
          PassTime(s)) && KeepsPlan(planned, s.session.built.deleted, PassTime(s));
        assert KeepsPlan(planned, s'.session.built.deleted, PassTime(s'));
      }
    }
  }

  lemma {:induction false} PlanAlwaysKept(b: seq<State>, i: nat)
    requires Behaviour(b) && b[0].session.Idle? && i < |b|
    ensures PlanKept(b[i])
  {
    hide PlanKept, Enabled, Apply;
    if i == 0 {
      IdleKeepsPlan(b[0]);
    } else {
      PlanAlwaysKept(b, i - 1);
      assert Next(b[i - 1], b[i]);
      var step :| Takes(b[i - 1], step, b[i]);
      PlanIsKept(b[i - 1], step);
    }
  }

  lemma IdleKeepsPlan(s: State)
    requires s.session.Idle?
    ensures PlanKept(s)
  {
  }

  // The mark of k after a backup that publishes, for every k: none where the
  // new index uses it; seven days where only the old one did; else the mark it
  // had, up to three years ahead, and seven days where it was further. All of
  // this unless the time had come before the deletion pass.
  lemma MarkAfterBackup(b: seq<State>, i: nat, k: Key)
    requires AnyRun(b) && i + 1 < |b| && BackupPublishes(b[i], b[i + 1])
    ensures var was, start, pass := Current(b[i].versions), b[i].session.start, PassTime(b[i]);
      var v := Current(b[i + 1].versions);
      && (k in IndexChunks(v) ==> k !in v.deleted)
      && (k !in was.deleted.Keys + IndexChunks(was) ==> k !in v.deleted)
      && (k in IndexChunks(was) - IndexChunks(v) && pass <= start + SEVEN_DAYS ==>
        k in v.deleted && v.deleted[k] == start + SEVEN_DAYS)
      && (k in was.deleted.Keys - IndexChunks(was) - IndexChunks(v) ==>
        && (pass <= was.deleted[k] <= start + THREE_YEARS ==> k in v.deleted && v.deleted[k] == was.deleted[k])
        && (pass <= start + SEVEN_DAYS && pass + THREE_YEARS < was.deleted[k] ==>
          k in v.deleted && v.deleted[k] == start + SEVEN_DAYS))
  {
    hide Newest, IndexChunks, Current;
    var s := b[i];
    PlanAlwaysKept(b, i);
    LedgerAlways(b, i);
    CurrentAfterPublish(s.versions, s.now, s.session.built);
    var planned :| PlannedMarks(s.session.loaded, IndexChunks(s.session.built), planned, s.session.start, PassTime(s))
      && KeepsPlan(planned, s.session.built.deleted, PassTime(s));
  }

  // The mark a fsck gives to a stored chunk nothing refers to.
  lemma MarkOfStray(s: State, s': State, k: Key)
    requires Takes(s, Reconcile, s') && k in s.store
    requires k !in s.session.index.deleted && k !in IndexChunks(s.session.index)
    ensures k in s'.session.index.deleted && s'.session.index.deleted[k] == s.now + TEN_YEARS
  {
  }

  // ---- minimum storage ----

  // Whatever leaves the store at any point of any run has been marked, its
  // time has passed, and so have 180 days since it was stored, where that is
  // known.
  lemma GoesInItsTime(b: seq<State>, i: nat, k: Key)
    requires Behaviour(b) && i + 1 < |b| && k in b[i].store && k !in b[i + 1].store
    ensures InPass(b[i]) && k in PassIndex(b[i]).deleted && PassIndex(b[i]).deleted[k] < PassTime(b[i])
    ensures b[i].store[k].modified.Some? ==> b[i].store[k].modified.value + HALF_YEAR < PassTime(b[i])
  {
    hide Enabled, Apply, Newest, IndexChunks;
    assert Next(b[i + 1 - 1], b[i + 1]);
    var step :| Takes(b[i], step, b[i + 1]);
    OnlyDeletesRemove(b[i], step, k);
    DeletesAreDue(b[i], step, k);
  }

  lemma DeletesAreDue(s: State, step: Step, k: Key)
    requires Enabled(s, step) && (step == Delete(k) || step == LoseDelete(k))
    ensures StorageEnd(s.store, k) < PassTime(s) && Overdue(s, k)
  {
  }

  // ---- thirty versions ----

  // A version that is swept has at least thirty newer ones beside it.
  lemma SweptHasThirtyNewer(s: State, t: int)
    requires Enabled(s, Sweep(t))
    ensures |set u | u in s.versions && t < u| >= 30
  {
    var newer: set<int> :| |newer| == KEPT_VERSIONS && newer <= s.versions.Keys && AllAbove(newer, t);
    SubsetSize(newer, set u | u in s.versions && t < u);
  }
}
