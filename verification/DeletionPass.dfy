// index.go, DeleteOutdatedChunks, as a function of marks, store and clock:
// what an error-free pass leaves behind.
module DeletionPass {
  import opened ChunkKeys
  import opened Archive
  import opened Protocol

  predicate PassDue(m: Marks, store: Store, now: int, k: Key) {
    k in m && m[k] < now && StorageEnd(store, k) < now
  }

  // An overdue mark is moved up to the end of the minimum storage.
  function RaisedMark(m: Marks, store: Store, now: int, k: Key): int
    requires k in m
  {
    if m[k] < now && m[k] < StorageEnd(store, k) then StorageEnd(store, k) else m[k]
  }

  function PassMarks(m: Marks, store: Store, now: int): Marks {
    map k | k in m && !PassDue(m, store, now, k) :: RaisedMark(m, store, now, k)
  }

  function PassStore(m: Marks, store: Store, now: int): Store {
    map k | k in store && !PassDue(m, store, now, k) :: store[k]
  }

  // Nothing overdue is left, nothing not yet due is touched, no mark is
  // lowered.
  lemma PassContract(m: Marks, store: Store, now: int)
    ensures var m', store' := PassMarks(m, store, now), PassStore(m, store, now);
      && (forall k :: k in m' ==> k in m && m[k] <= m'[k] && now <= m'[k])
      && (forall k :: k in m && now <= m[k] ==> k in m' && m'[k] == m[k])
      && (forall k :: k in store && k !in store' ==> k in m && m[k] < now)
      && (forall k :: k in store && k !in store' && store[k].modified.Some? ==>
        store[k].modified.value + MIN_STORAGE < now)
      && (forall k :: k in store && k !in m ==> k in store')
      && (forall k :: k in m && k !in m' ==> k !in store')
  {
  }

  // Key by key: a mark that has not passed stays; a passed one stays, moved up,
  // as long as its chunk is known to be younger than 180 days; any other goes,
  // and its chunk with it.
  lemma PassByKey(m: Marks, store: Store, now: int, k: Key)
    ensures var m', store' := PassMarks(m, store, now), PassStore(m, store, now);
      var end := if k in store && store[k].modified.Some? then store[k].modified.value + 180 * 86400 else 0;
      && (k in m && now <= m[k] ==> k in m' && m'[k] == m[k] && (k in store ==> k in store'))
      && (k in m && m[k] < now && now <= end ==> k in m' && m'[k] == end && (k in store ==> k in store'))
      && (k in m && m[k] < now && end < now ==> k !in m' && k !in store')
      && (k !in m ==> k !in m' && (k in store ==> k in store'))
      && (k in store' ==> k in store && store'[k] == store[k])
  {
  }

  // A second pass at the same instant finds nothing to do.
  lemma PassIsIdempotent(m: Marks, store: Store, now: int)
    ensures var m', store' := PassMarks(m, store, now), PassStore(m, store, now);
      PassMarks(m', store', now) == m' && PassStore(m', store', now) == store'
  {
  }

  // The pass deletes exactly the marked chunks that were due, so what the
  // marks accounted for they still account for.
  lemma PassConserves(m: Marks, store: Store, now: int, live: set<Key>)
    requires store.Keys == live + m.Keys && live !! m.Keys
    ensures PassStore(m, store, now).Keys == live + PassMarks(m, store, now).Keys
  {
  }

  ghost predicate AgreeBut<V>(a: map<Key, V>, b: map<Key, V>, k: Key) {
    forall j :: j != k ==> (j in a <==> j in b) && (j in a && j in b ==> a[j] == b[j])
  }

  // What one turn of the loop makes of key k: nothing before its time, the
  // due chunk and its mark removed together, else the mark moved up. A failed
  // call leaves the mark, and the chunk only if it is not due.
  ghost predicate Turn(m: Marks, store: Store, now: int, k: Key, ok: bool, m': Marks, store': Store)
    requires k in m
  {
    && AgreeBut(m, m', k) && AgreeBut(store, store', k)
    && (k in store' ==> k in store && store'[k] == store[k])
    && (k in store && k !in store' ==> PassDue(m, store, now, k))
    && (k in m' ==> m'[k] == m[k] || m'[k] == RaisedMark(m, store, now, k))
    && (k !in m' ==> k !in store')
    && (ok && PassDue(m, store, now, k) ==> k !in m' && k !in store')
    && (ok && !PassDue(m, store, now, k) ==> k in m' && m'[k] == RaisedMark(m, store, now, k))
  }

  lemma SkippedTurn(m: Marks, store: Store, now: int, k: Key, ok: bool)
    requires k in m && (ok ==> now <= m[k])
    ensures Turn(m, store, now, k, ok, m, store)
  {
  }

  lemma OverdueTurn(m: Marks, store: Store, now: int, k: Key, end: int, m1: Marks)
    requires k in m && m[k] < now && end == StorageEnd(store, k)
    requires m1 == if end > m[k] then m[k := end] else m
    ensures now <= end ==> Turn(m, store, now, k, true, m1, store)
    ensures end < now ==> Turn(m, store, now, k, true, m1 - {k}, store - {k})
    ensures end < now ==> Turn(m, store, now, k, false, m1, store) && Turn(m, store, now, k, false, m1, store - {k})
  {
  }

  // The loop with the keys todo still ahead of it.
  ghost predicate Progress(m0: Marks, store0: Store, now: int, todo: set<Key>, ok: bool, m: Marks, store: Store) {
    && todo <= m.Keys <= m0.Keys
    && (forall k :: k in todo ==> m[k] == m0[k])
    && (forall k :: k in store ==> k in store0 && store[k] == store0[k])
    && (forall k :: k in store0 && k !in store ==> k !in todo && PassDue(m0, store0, now, k))
    && (forall k :: k in m ==> m[k] == m0[k] || m[k] == RaisedMark(m0, store0, now, k))
    && (forall k :: k in m0 && k !in m ==> k !in store)
    && (ok ==> forall k :: k in m0.Keys - todo ==>
        if PassDue(m0, store0, now, k) then k !in m && k !in store
          else k in m && m[k] == RaisedMark(m0, store0, now, k))
  }

  lemma NothingDone(m0: Marks, store0: Store, now: int)
    ensures Progress(m0, store0, now, m0.Keys, true, m0, store0)
  {
  }

  lemma TurnProgresses(m0: Marks, store0: Store, now: int, todo: set<Key>, ok: bool, m: Marks, store: Store,
                       k: Key, turned: bool, m': Marks, store': Store)
    requires Progress(m0, store0, now, todo, ok, m, store) && k in todo
    requires Turn(m, store, now, k, turned, m', store')
    ensures Progress(m0, store0, now, todo - {k}, ok && turned, m', store')
    ensures todo - {k} <= m'.Keys
  {
    hide PassDue, RaisedMark;
    TurnOnFreshKey(m0, store0, now, todo, ok, m, store, k);
  }

  lemma TurnOnFreshKey(m0: Marks, store0: Store, now: int, todo: set<Key>, ok: bool, m: Marks, store: Store, k: Key)
    requires Progress(m0, store0, now, todo, ok, m, store) && k in todo
    ensures PassDue(m, store, now, k) == PassDue(m0, store0, now, k)
    ensures RaisedMark(m, store, now, k) == RaisedMark(m0, store0, now, k)
  {
  }

  lemma PassComplete(m0: Marks, store0: Store, now: int, ok: bool, m: Marks, store: Store)
    requires Progress(m0, store0, now, {}, ok, m, store)
    ensures ok ==> m == PassMarks(m0, store0, now) && store == PassStore(m0, store0, now)
  {
  }
}
