// Holes: a published chunk that is not stored, how long it stays missing, and
// what a fsck does about it.
module ProtocolRepair {
  import opened ChunkKeys
  import opened Archive
  import opened Protocol
  import opened ProtocolSafety
  import opened ProtocolAccounts

  // ---- a hole stays ----

  // k is missing from the published index, and the running backup will not
  // upload it, for it trusts the index it loaded.
  ghost predicate Hole(s: State, k: Key) {
    && (forall t :: t in s.versions ==> t <= s.now)
    && k in IndexChunks(Current(s.versions)) && k !in s.store
    && (s.session.Backup? ==> s.session.loaded == Current(s.versions) && k in IndexChunks(s.session.built))
  }

  // The running backup still has a file with chunk k.
  ghost predicate StillIndexed(s: State, k: Key) {
    s.session.Backup? ==> k in IndexChunks(s.session.built)
  }

  ghost predicate FsckPublishes(s: State, s': State) {
    s.session.Fsck? && Takes(s, Publish, s')
  }

  lemma HoleStep(s: State, step: Step, k: Key)
    requires Hole(s, k) && Enabled(s, step) && StillIndexed(Apply(s, step), k)
    requires !FsckPublishes(s, Apply(s, step))
    ensures Hole(Apply(s, step), k)
  {
    hide Newest, IndexChunks, Reconciled, PlannedMarks, Current;
    match step
    case Publish => CurrentAfterPublish(s.versions, s.now, s.session.built);
    case Sweep(t) => SweepKeepsCurrent(s.versions, t);
    case _ =>
  }

  // However many backups follow, one that still indexes a file with a missing
  // chunk never uploads it, until a fsck publishes.
  lemma {:induction false} HoleStays(b: seq<State>, i: nat, k: Key)
    requires AnyRun(b) && i < |b|
    requires k in IndexChunks(Current(b[0].versions)) && k !in b[0].store
    requires forall j :: 0 <= j < |b| ==> StillIndexed(b[j], k)
    requires forall j :: 0 < j < |b| ==> !FsckPublishes(b[j - 1], b[j])
    ensures Hole(b[i], k)
  {
    hide Hole, StillIndexed, FsckPublishes, Enabled, Apply;
    if i == 0 {
      HoleStarts(b[0], k);
    } else {
      HoleStays(b, i - 1, k);
      assert Next(b[i - 1], b[i]);
      var step :| Takes(b[i - 1], step, b[i]);
      HoleStep(b[i - 1], step, k);
    }
  }

  lemma HoleStarts(s: State, k: Key)
    requires s.session.Idle? && (forall t :: t in s.versions ==> t <= s.now)
    requires k in IndexChunks(Current(s.versions)) && k !in s.store
    ensures Hole(s, k)
  {
  }

  // ---- and a fsck repairs ----

  lemma ForgetStep(s: State, t: State, step: Step)
    requires Enabled(s, step) && t == s.(history := t.history)
    ensures Enabled(t, step) && Apply(t, step) == Apply(s, step).(history := Apply(t, step).history)
    ensures PublishesHole(t, Apply(t, step)) ==> PublishesHole(s, Apply(s, step))
  {
    hide Newest, IndexChunks, Reconciled, PlannedMarks, Current, Outranked;
  }

  // What happens does not depend on which versions were published before.
  lemma {:induction false} Forget(b: seq<State>, history: seq<Published>) returns (c: seq<State>)
    requires Behaviour(b)
    ensures |c| == |b| && Behaviour(c) && c[0] == b[0].(history := history)
    ensures forall j :: 0 <= j < |b| ==> c[j] == b[j].(history := c[j].history)
    ensures forall j :: 0 < j < |b| ==> (PublishesHole(c[j - 1], c[j]) ==> PublishesHole(b[j - 1], b[j]))
  {
    hide Enabled, Apply, PublishesHole;
    var last := |b| - 1;
    if last == 0 {
      c := [b[0].(history := history)];
    } else {
      BehaviourPrefix(b, last);
      var d := Forget(b[..last], history);
      assert Next(b[last - 1], b[last]);
      var step :| Takes(b[last - 1], step, b[last]);
      assert b[..last][last - 1] == b[last - 1];
      ForgetStep(b[last - 1], d[last - 1], step);
      c := d + [Apply(d[last - 1], step)];
      assert Takes(c[last - 1], step, c[last]);
      forall j | 0 < j < |c|
        ensures Next(c[j - 1], c[j])
        ensures PublishesHole(c[j - 1], c[j]) ==> PublishesHole(b[j - 1], b[j])
      {
        if j < last {
          assert Next(d[j - 1], d[j]);
          assert b[..last][j - 1] == b[j - 1] && b[..last][j] == b[j];
        }
      }
    }
  }

  lemma BehaviourPrefix(b: seq<State>, n: nat)
    requires Behaviour(b) && 0 < n <= |b|
    ensures Behaviour(b[..n])
  {
    hide Next;
    forall i | 0 < i < n ensures Next(b[..n][i - 1], b[..n][i]) {
      assert Next(b[i - 1], b[i]);
    }
  }

  lemma BehaviourSuffix(b: seq<State>, n: nat)
    requires Behaviour(b) && n < |b|
    ensures Behaviour(b[n..])
  {
    hide Next;
    forall i | 0 < i < |b| - n ensures Next(b[n..][i - 1], b[n..][i]) {
      assert Next(b[n + i - 1], b[n + i]);
    }
  }

  // From a fsck that publishes, over any archive whose marks are apart from
  // its files, the published index is complete for good: a fresh start.
  lemma FsckRepairs(b: seq<State>, i: nat, j: nat)
    requires AnyRun(b) && Disjoint(Current(b[0].versions))
    requires i < j < |b| && FsckPublishes(b[i], b[i + 1])
    requires forall m :: i < m < |b| ==> Timely(b[m])
    requires forall m :: i + 1 < m < |b| ==> !PublishesHole(b[m - 1], b[m])
    ensures PublishedSafe(b[j])
  {
    hide Enabled, Apply, Timely, PublishesHole, Newest;
    FsckMakesExact(b, i);
    LedgerAlways(b, i + 1);
    var tail := b[i + 1..];
    BehaviourSuffix(b, i + 1);
    var s := tail[0];
    var c := Forget(tail, OpeningHistory(s.versions));
    FreshStart(b[i], s, c[0]);
    forall m | 0 <= m < |c| ensures Timely(c[m]) {
      SameTimeliness(tail[m], c[m]);
    }
    forall m | 0 < m < |c| ensures !PublishesHole(c[m - 1], c[m]) {
      assert tail[m - 1] == b[i + m] && tail[m] == b[i + m + 1];
    }
    PublishedAlwaysSafe(c, j - i - 1);
  }

  lemma SameTimeliness(s: State, t: State)
    requires Timely(s) && t == s.(history := t.history)
    ensures Timely(t)
  {
  }

  lemma FreshStart(before: State, s: State, c: State)
    requires FsckPublishes(before, s) && Ledger(s) && Exact(s) && Disjoint(Current(s.versions))
    requires c == s.(history := OpeningHistory(s.versions))
    ensures Start(c)
  {
    hide Newest, IndexChunks;
  }

  // So a missing chunk leaves the index with the fsck, and is stored again as
  // soon as a later backup publishes a file with it.
  lemma HoleRepaired(b: seq<State>, i: nat, j: nat, k: Key)
    requires AnyRun(b) && Disjoint(Current(b[0].versions))
    requires i < j < |b| && FsckPublishes(b[i], b[i + 1]) && k !in b[i].store
    requires forall m :: i < m < |b| ==> Timely(b[m])
    requires forall m :: i + 1 < m < |b| ==> !PublishesHole(b[m - 1], b[m])
    ensures k !in IndexChunks(Current(b[i + 1].versions))
    ensures k in IndexChunks(Current(b[j].versions)) ==> k in b[j].store
  {
    hide Timely, PublishesHole, Newest, Ledger, Behaviour;
    FsckMakesExact(b, i);
    FsckRepairs(b, i, j);
  }
}
