// Accounting: which chunks are stored, and when an unreferenced one is gone.
module ProtocolAccounts {
  import opened ChunkKeys
  import opened Archive
  import opened Protocol
  import opened ProtocolSafety

  // ---- exact accounting ----

  ghost predicate Accounts(v: IndexVal, stored: set<Key>) {
    stored == IndexChunks(v) + v.deleted.Keys
  }

  // The published index accounts for every stored chunk and nothing else.
  ghost predicate Exact(s: State) {
    Accounts(Current(s.versions), s.store.Keys)
  }

  // Nothing here rests on the index being sound to begin with.
  ghost predicate Ledger(s: State) {
    && 0 < s.now && (forall t :: t in s.versions ==> t <= s.now)
    && match s.session
       case Idle => true
       case Backup(start, loaded, built, base, vanished, pass) =>
         && loaded == Current(s.versions)
         && (pass.Some? ==> 0 < pass.value)
         && (vanished == {} && Accounts(loaded, base) ==>
             if pass.None? then base <= s.store.Keys <= base + IndexChunks(built)
             else
               && built.deleted.Keys !! IndexChunks(built)
               && IndexChunks(built) <= s.store.Keys <= IndexChunks(built) + built.deleted.Keys
               && forall k :: k in built.deleted && !Overdue(s, k) ==> k in s.store)
       case Fsck(index, _, listed) => listed ==> Accounts(index, s.store.Keys)
  }

  lemma ReconciledAccounts(v: IndexVal, stored: set<Key>, now: int)
    ensures Accounts(Reconciled(v, stored, now), stored)
  {
  }

  lemma LedgerRaise(s: State, k: Key)
    requires Ledger(s) && Enabled(s, RaiseMark(k))
    ensures Ledger(Apply(s, RaiseMark(k)))
  {
  }

  lemma LedgerDelete(s: State, k: Key)
    requires Ledger(s) && Enabled(s, Delete(k))
    ensures Ledger(Apply(s, Delete(k)))
    ensures Ledger(Apply(s, LoseDelete(k)))
  {
    hide Newest, IndexChunks;
    SameFilesSameChunks(PassIndex(s), PassIndex(Apply(s, Delete(k))));
  }

  lemma LedgerBeginPass(s: State, marks: Marks)
    requires Ledger(s) && Enabled(s, BeginPass(marks))
    ensures Ledger(Apply(s, BeginPass(marks)))
  {
  }

  lemma LedgerStep(s: State, step: Step)
    requires Ledger(s) && Enabled(s, step)
    ensures Ledger(Apply(s, step))
  {
    hide Newest, IndexChunks, PlannedMarks, Reconciled;
    match step
    case BeginPass(marks) => LedgerBeginPass(s, marks);
    case RaiseMark(k) => LedgerRaise(s, k);
    case Delete(k) => LedgerDelete(s, k);
    case LoseDelete(k) => LedgerDelete(s, k);
    case Reconcile => ReconciledAccounts(s.session.index, s.store.Keys, s.now);
    case Sweep(t) => SweepKeepsCurrent(s.versions, t);
    case _ =>
  }

  // A run over any bucket at all, its index sound or not, after the epoch.
  ghost predicate AnyRun(b: seq<State>) {
    Behaviour(b) && b[0].session.Idle? && 0 < b[0].now && forall t :: t in b[0].versions ==> t <= b[0].now
  }

  lemma {:induction false} LedgerAlways(b: seq<State>, i: nat)
    requires AnyRun(b) && i < |b|
    ensures Ledger(b[i])
  {
    hide Ledger, Enabled, Apply;
    if i == 0 {
      IdleLedger(b[0]);
    } else {
      LedgerAlways(b, i - 1);
      assert Next(b[i - 1], b[i]);
      var step :| Takes(b[i - 1], step, b[i]);
      LedgerStep(b[i - 1], step);
    }
  }

  lemma IdleLedger(s: State)
    requires s.session.Idle? && 0 < s.now && forall t :: t in s.versions ==> t <= s.now
    ensures Ledger(s)
  {
  }

  // No chunk is both in use and marked.
  ghost predicate Disjoint(v: IndexVal) {
    v.deleted.Keys !! IndexChunks(v)
  }

  ghost predicate MarksApart(s: State) {
    && (forall t :: t in s.versions ==> t <= s.now)
    && Disjoint(Current(s.versions))
    && (s.session.Backup? && s.session.pass.Some? ==> Disjoint(s.session.built))
    && (s.session.Fsck? ==> Disjoint(s.session.index))
  }

  lemma PassKeepsApart(s: State, step: Step)
    requires step.RaiseMark? || step.Delete?
    requires MarksApart(s) && Enabled(s, step)
    ensures MarksApart(Apply(s, step))
  {
    hide Newest, IndexChunks, Current;
    SameFilesSameChunks(PassIndex(s), PassIndex(Apply(s, step)));
  }

  lemma ReconcileKeepsApart(v: IndexVal, stored: set<Key>, now: int)
    requires Disjoint(v)
    ensures Disjoint(Reconciled(v, stored, now))
  {
  }

  lemma ApartStep(s: State, step: Step)
    requires MarksApart(s) && Enabled(s, step)
    ensures MarksApart(Apply(s, step))
  {
    hide Newest, IndexChunks, Reconciled, Current, Disjoint;
    match step
    case BeginPass(marks) => PlannedIsDisjoint(s, marks);
    case RaiseMark(_) => PassKeepsApart(s, step);
    case Delete(_) => PassKeepsApart(s, step);
    case Reconcile => ReconcileKeepsApart(s.session.index, s.store.Keys, s.now);
    case Publish =>
      CurrentAfterPublish(s.versions, s.now, if s.session.Backup? then s.session.built else s.session.index);
    case Sweep(t) => SweepKeepsCurrent(s.versions, t);
    case _ =>
  }

  lemma PlannedIsDisjoint(s: State, marks: Marks)
    requires Enabled(s, BeginPass(marks))
    ensures Disjoint(Apply(s, BeginPass(marks)).session.built)
  {
    hide Newest, IndexChunks, Clamped;
    SameFilesSameChunks(s.session.built, s.session.built.(deleted := marks));
  }

  lemma {:induction false} ApartAlways(b: seq<State>, i: nat)
    requires AnyRun(b) && i < |b| && Disjoint(Current(b[0].versions))
    ensures MarksApart(b[i])
  {
    hide MarksApart, Enabled, Apply;
    if i == 0 {
      IdleApart(b[0]);
    } else {
      ApartAlways(b, i - 1);
      assert Next(b[i - 1], b[i]);
      var step :| Takes(b[i - 1], step, b[i]);
      ApartStep(b[i - 1], step);
    }
  }

  lemma IdleApart(s: State)
    requires s.session.Idle? && Disjoint(Current(s.versions)) && forall t :: t in s.versions ==> t <= s.now
    ensures MarksApart(s)
  {
  }

  // Once true, disjointness is kept, whatever vanishes, comes late or fails.
  lemma DisjointAlways(b: seq<State>, i: nat)
    requires AnyRun(b) && i < |b| && Disjoint(Current(b[0].versions))
    ensures Disjoint(Current(b[i].versions))
  {
    ApartAlways(b, i);
  }

  // After any fsck that publishes, whatever it started from, the stored
  // chunks are the file chunks and the marked chunks: a partition, if the run
  // began with no chunk both in use and marked.
  lemma FsckMakesExact(b: seq<State>, i: nat)
    requires AnyRun(b) && i + 1 < |b|
    requires b[i].session.Fsck? && Takes(b[i], Publish, b[i + 1])
    ensures Exact(b[i + 1])
    ensures Disjoint(Current(b[0].versions)) ==> Disjoint(Current(b[i + 1].versions))
  {
    LedgerAlways(b, i);
    CurrentAfterPublish(b[i].versions, b[i].now, b[i].session.index);
    if Disjoint(Current(b[0].versions)) {
      DisjointAlways(b, i + 1);
    }
  }

  // A completed backup of an exact archive leaves an exact one, and the two
  // halves of the account do not overlap.
  lemma BackupKeepsExact(b: seq<State>, i: nat)
    requires AnyRun(b) && i + 1 < |b|
    requires b[i].session.Backup? && b[i].session.vanished == {} && Takes(b[i], Publish, b[i + 1])
    requires Accounts(b[i].session.loaded, b[i].session.base)
    ensures Exact(b[i + 1])
    ensures Disjoint(Current(b[i + 1].versions))
  {
    LedgerAlways(b, i);
    CurrentAfterPublish(b[i].versions, b[i].now, b[i].session.built);
  }

  // ---- reclamation ----

  ghost predicate Capped(s: State) {
    && 0 < s.now
    && (forall k :: k in s.store && s.store[k].modified.Some? ==> s.store[k].modified.value <= s.now)
    && (s.session.Backup? ==>
      && s.session.start <= s.now
      && (InPass(s) ==> forall k :: k in s.session.built.deleted ==> s.session.built.deleted[k] <= s.now + CLAMP_AFTER))
  }

  lemma CappedStep(s: State, step: Step)
    requires Capped(s) && Enabled(s, step)
    ensures Capped(Apply(s, step))
  {
    hide Newest, IndexChunks, Reconciled;
  }

  lemma {:induction false} CappedAlways(b: seq<State>, i: nat)
    requires Behaviour(b) && Capped(b[0]) && i < |b|
    ensures Capped(b[i])
  {
    hide Capped, Enabled, Apply;
    if i > 0 {
      CappedAlways(b, i - 1);
      assert Next(b[i - 1], b[i]);
      var step :| Takes(b[i - 1], step, b[i]);
      CappedStep(b[i - 1], step);
    }
  }

  // After a backup completes no mark lies more than three years ahead, the
  // ten years fsck grants to strays included.
  lemma MarksCapped(b: seq<State>, i: nat)
    requires AnyRun(b) && Capped(b[0]) && i + 1 < |b|
    requires b[i].session.Backup? && Takes(b[i], Publish, b[i + 1])
    ensures var v := Current(b[i + 1].versions);
      forall k :: k in v.deleted ==> b[i].session.pass.value <= v.deleted[k] <= b[i + 1].now + CLAMP_AFTER
  {
    CappedAlways(b, i);
    LedgerAlways(b, i);
    CurrentAfterPublish(b[i].versions, b[i].now, b[i].session.built);
  }

  // k is wanted by neither the published index nor the one being built.
  ghost predicate Unwanted(s: State, k: Key) {
    && k !in IndexChunks(Current(s.versions))
    && (s.session.Backup? ==> k !in IndexChunks(s.session.built))
  }

  ghost predicate MarkedBy(v: IndexVal, store: Store, k: Key, bound: int) {
    && (k in store ==> k in v.deleted)
    && (k in v.deleted ==> v.deleted[k] <= bound)
  }

  // k is on its way out: as long as it is stored it is marked, at most bound.
  ghost predicate Doomed(s: State, k: Key, bound: int) {
    && (forall t :: t in s.versions ==> t <= s.now)
    && 0 <= bound && StorageEnd(s.store, k) <= bound
    && MarkedBy(Current(s.versions), s.store, k, bound)
    && match s.session
       case Idle => true
       case Backup(start, loaded, built, _, _, pass) =>
         loaded == Current(s.versions) && (pass.Some? ==> MarkedBy(built, s.store, k, bound))
       case Fsck(index, _, _) => MarkedBy(index, s.store, k, bound)
  }

  lemma DoomedBeginPass(s: State, marks: Marks, k: Key, bound: int)
    requires Doomed(s, k, bound) && Unwanted(s, k) && Enabled(s, BeginPass(marks))
    ensures Doomed(Apply(s, BeginPass(marks)), k, bound)
  {
    hide Newest, IndexChunks;
  }

  lemma DoomedPass(s: State, step: Step, k: Key, bound: int)
    requires step.RaiseMark? || step.Delete? || step.LoseDelete?
    requires Doomed(s, k, bound) && Enabled(s, step)
    ensures Doomed(Apply(s, step), k, bound)
  {
    hide Newest, IndexChunks;
  }

  lemma DoomedReconcile(s: State, k: Key, bound: int)
    requires Doomed(s, k, bound) && Enabled(s, Reconcile)
    ensures Doomed(Apply(s, Reconcile), k, bound)
  {
    hide Newest, IndexChunks;
  }

  lemma DoomedStep(s: State, step: Step, k: Key, bound: int)
    requires Doomed(s, k, bound) && Unwanted(s, k) && Enabled(s, step)
    ensures Doomed(Apply(s, step), k, bound)
  {
    hide Newest, IndexChunks, PlannedMarks, Reconciled;
    match step
    case BeginPass(marks) => DoomedBeginPass(s, marks, k, bound);
    case RaiseMark(_) => DoomedPass(s, step, k, bound);
    case Delete(_) => DoomedPass(s, step, k, bound);
    case LoseDelete(_) => DoomedPass(s, step, k, bound);
    case Reconcile => DoomedReconcile(s, k, bound);
    case Publish =>
      CurrentAfterPublish(s.versions, s.now, if s.session.Backup? then s.session.built else s.session.index);
    case Sweep(t) => SweepKeepsCurrent(s.versions, t);
    case _ =>
  }

  lemma {:induction false} DoomedAlways(b: seq<State>, i: nat, k: Key, bound: int)
    requires Behaviour(b) && i < |b| && Doomed(b[0], k, bound)
    requires forall j :: 0 <= j < |b| ==> Unwanted(b[j], k)
    ensures Doomed(b[i], k, bound)
  {
    hide Doomed, Unwanted, Enabled, Apply;
    if i > 0 {
      DoomedAlways(b, i - 1, k, bound);
      assert Next(b[i - 1], b[i]);
      var step :| Takes(b[i - 1], step, b[i]);
      DoomedStep(b[i - 1], step, k, bound);
    }
  }

  // From any moment at which k is marked, between runs: while nobody wants k
  // again, no backup or fsck ever pushes its mark beyond the later of that
  // mark and the end of its minimum storage.
  lemma NeverMarkedLater(b: seq<State>, i: nat, k: Key)
    requires AnyRun(b) && i < |b|
    requires k in Current(b[0].versions).deleted
    requires forall j :: 0 <= j < |b| ==> Unwanted(b[j], k)
    ensures var bound := Due(b[0], k);
      var v := Current(b[i].versions);
      && (k in b[i].store ==> k in v.deleted)
      && (k in v.deleted ==> v.deleted[k] <= bound)
  {
    DoomedAlways(b, i, k, Due(b[0], k));
  }

  // When k, marked in s, has no claim left.
  ghost function Due(s: State, k: Key): int
    requires k in Current(s.versions).deleted
  {
    var t := Current(s.versions).deleted[k];
    var m := if t < 0 then 0 else t;
    if m < StorageEnd(s.store, k) then StorageEnd(s.store, k) else m
  }

  // And the first completed backup whose pass runs later than that has
  // removed it.
  lemma GoneAfterDuePass(b: seq<State>, i: nat, k: Key)
    requires AnyRun(b) && i + 1 < |b|
    requires k in Current(b[0].versions).deleted
    requires forall j :: 0 <= j < |b| ==> Unwanted(b[j], k)
    requires b[i].session.Backup? && Takes(b[i], Publish, b[i + 1]) && Due(b[0], k) < PassTime(b[i])
    ensures k !in b[i + 1].store && k !in Current(b[i + 1].versions).deleted
  {
    DoomedAlways(b, i, k, Due(b[0], k));
    LedgerAlways(b, i);
    CurrentAfterPublish(b[i].versions, b[i].now, b[i].session.built);
  }

  // The reconciliation that a listed fsck has behind it.
  lemma {:induction false} ReconciledBefore(b: seq<State>, i: nat) returns (j: nat)
    requires Behaviour(b) && b[0].session.Idle? && i < |b| && b[i].session.Fsck? && b[i].session.listed
    ensures j < i && b[j].session.Fsck? && Takes(b[j], Reconcile, b[j + 1]) && b[i].session == b[j + 1].session
  {
    hide Enabled, Apply;
    assert Next(b[i - 1], b[i]);
    var step :| Takes(b[i - 1], step, b[i]);
    ListedBefore(b[i - 1], step);
    j := i - 1;
    if step != Reconcile {
      j := ReconciledBefore(b, i - 1);
    }
  }

  lemma ListedBefore(s: State, step: Step)
    requires Enabled(s, step) && Apply(s, step).session.Fsck? && Apply(s, step).session.listed
    ensures s.session.Fsck? && (step == Reconcile || s.session == Apply(s, step).session)
  {
    hide Newest, IndexChunks, PlannedMarks, Reconciled, Current;
  }

  // So has the first published fsck whose pass runs later than that, unless
  // the pass failed on k: k was still stored, with its mark overdue, when the
  // fsck came to reconcile.
  lemma GoneAfterDueFsck(b: seq<State>, i: nat, k: Key) returns (j: nat)
    requires AnyRun(b) && i + 1 < |b|
    requires k in Current(b[0].versions).deleted
    requires forall m :: 0 <= m < |b| ==> Unwanted(b[m], k)
    requires b[i].session.Fsck? && Takes(b[i], Publish, b[i + 1]) && Due(b[0], k) < b[i].session.read
    ensures j < i && b[j].session.Fsck? && Takes(b[j], Reconcile, b[j + 1]) && b[i].session == b[j + 1].session
    ensures k !in b[i + 1].store && k !in Current(b[i + 1].versions).deleted <==>
      !(k in b[j].store && Overdue(b[j], k))
  {
    hide Newest, IndexChunks, Reconciled;
    j := ReconciledBefore(b, i);
    DoomedAlways(b, j, k, Due(b[0], k));
    LedgerAlways(b, i);
    ReconciledMarks(b[j], b[i], k, Due(b[0], k));
    CurrentAfterPublish(b[i].versions, b[i].now, b[i].session.index);
    assert Unwanted(b[i + 1], k);
  }

  lemma ReconciledMarks(s: State, s': State, k: Key, bound: int)
    requires Doomed(s, k, bound) && Enabled(s, Reconcile) && bound < s.session.read
    requires s'.session == Apply(s, Reconcile).session && Ledger(s')
    ensures k !in IndexChunks(s'.session.index) ==>
      && (k in s'.store <==> k in s'.session.index.deleted)
      && (k in s'.session.index.deleted <==> k in s.store && Overdue(s, k))
  {
    hide Newest;
  }
}
