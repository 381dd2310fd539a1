// index.go, getLatestIndex: the list of versions, newest first, and which of
// them a sweep may remove.
module VersionList {
  import opened Wrappers
  import opened Archive
  import opened Protocol

  predicate Descending(s: seq<int>) {
    forall i, j :: 0 <= i < j < |s| ==> s[j] < s[i]
  }

  method SortDescending(list: seq<int>) returns (r: seq<int>)
    requires forall i, j :: 0 <= i < j < |list| ==> list[i] != list[j]
    ensures Descending(r) && |r| == |list|
    ensures forall t :: t in r <==> t in list
  {
    r := [];
    for i := 0 to |list|
      invariant Descending(r) && |r| == i
      invariant forall t :: t in r <==> t in list[..i]
    {
      var x := list[i];
      assert x !in list[..i];
      var p := 0;
      while p < |r| && r[p] > x
        invariant 0 <= p <= |r|
        invariant forall j :: 0 <= j < p ==> r[j] > x
      {
        p := p + 1;
      }
      assert p < |r| ==> r[p] in r;
      r := r[..p] + [x] + r[p..];
      assert list[..i + 1] == list[..i] + [x];
    }
    assert list[..|list|] == list;
  }

  lemma {:induction false} DistinctCount(s: seq<int>)
    requires Descending(s)
    ensures |set t | t in s| == |s|
  {
    if s != [] {
      DistinctCount(s[1..]);
      assert s[0] !in s[1..];
      assert (set t | t in s) == (set t | t in s[1..]) + {s[0]};
    }
  }

  // Anything after the 30th place is outranked.
  lemma TailIsOutranked(versions: Versions, sorted: seq<int>, i: nat)
    requires Descending(sorted) && KEPT_VERSIONS <= i < |sorted|
    requires forall j :: 0 <= j < KEPT_VERSIONS ==> sorted[j] in versions
    ensures Outranked(versions, sorted[i])
  {
    var top := sorted[..KEPT_VERSIONS];
    var newer := set t | t in top;
    DistinctCount(top);
    assert AllAbove(newer, sorted[i]);
  }

  // What a sweep may leave of the versions: the 30 newest are all kept.
  ghost predicate SweptFrom(before: Versions, after: Versions) {
    && after.Keys <= before.Keys
    && (forall t :: t in after ==> after[t] == before[t])
    && (forall t :: t in before && t !in after ==> Outranked(before, t))
  }

  lemma NewestIsNotOutranked(versions: Versions, t: int)
    requires IsNewest(versions, t)
    ensures !Outranked(versions, t)
  {
    forall newer: set<int> | |newer| == KEPT_VERSIONS && newer <= versions.Keys ensures !AllAbove(newer, t) {
      var u := ElementOf(newer);
      assert u in versions;
    }
  }

  lemma SweepKeepsNewest(before: Versions, after: Versions)
    requires SweptFrom(before, after)
    ensures Current(after) == Current(before) && after.Keys <= before.Keys
    ensures after.Keys == {} <==> before.Keys == {}
    ensures before.Keys != {} ==> Newest(after) == Newest(before)
  {
    if before.Keys != {} {
      NewestIsNotOutranked(before, Newest(before));
      assert Newest(before) in after;
      assert IsNewest(after, Newest(after));
    }
  }

  lemma OutrankedEarlier(before: Versions, after: Versions, t: int)
    requires after.Keys <= before.Keys && Outranked(after, t)
    ensures Outranked(before, t)
  {
  }

  // ---- a sweep that loses no call ----

  // after is what is left of before: its 30 newest, or all of it if fewer.
  ghost predicate NewestThirty(before: Versions, after: Versions) {
    && after.Keys <= before.Keys
    && (forall t :: t in after ==> after[t] == before[t])
    && |after| == (if |before| < KEPT_VERSIONS then |before| else KEPT_VERSIONS)
    && (forall t, u :: t in after && u in before && u !in after ==> u < t)
  }

  function Top(sorted: seq<int>): seq<int> {
    if |sorted| <= KEPT_VERSIONS then sorted else sorted[..KEPT_VERSIONS]
  }

  lemma TopIsDescending(sorted: seq<int>)
    requires Descending(sorted)
    ensures Descending(Top(sorted))
    ensures |Top(sorted)| == if |sorted| < KEPT_VERSIONS then |sorted| else KEPT_VERSIONS
  {
  }

  lemma TopIsAbove(sorted: seq<int>, t: int, u: int)
    requires Descending(sorted) && t in Top(sorted) && u in sorted && u !in Top(sorted)
    ensures u < t
  {
    var i :| 0 <= i < |Top(sorted)| && Top(sorted)[i] == t;
    var j :| 0 <= j < |sorted| && sorted[j] == u;
    assert forall m :: 0 <= m < |Top(sorted)| ==> sorted[m] == Top(sorted)[m];
  }

  lemma SameSize(m: Versions, q: seq<int>)
    requires Descending(q) && forall t :: t in q <==> t in m
    ensures |m| == |q|
  {
    hide Descending;
    DistinctCount(q);
    forall t ensures t in m.Keys <==> t in (set u | u in q) {
    }
    assert m.Keys == set u | u in q;
  }

  lemma TopIsNewestThirty(before: Versions, after: Versions, sorted: seq<int>)
    requires Descending(sorted) && forall t :: t in sorted <==> t in before
    requires forall t :: t in after <==> t in Top(sorted)
    requires forall t :: t in after ==> t in before && after[t] == before[t]
    ensures NewestThirty(before, after)
  {
    hide Descending, Top;
    TopIsDescending(sorted);
    SameSize(before, sorted);
    SameSize(after, Top(sorted));
    forall t, u | t in after && u in before && u !in after ensures u < t {
      TopIsAbove(sorted, t, u);
    }
  }

  lemma KeptIsNewestThirty(before: Versions, after: Versions, sorted: seq<int>)
    requires Descending(sorted) && forall t :: t in sorted <==> t in before
    requires SweptFrom(before, after) && (|sorted| <= KEPT_VERSIONS ==> after == before)
    requires |sorted| > KEPT_VERSIONS ==>
      && (forall j :: 0 <= j < KEPT_VERSIONS ==> sorted[j] in after)
      && (forall t :: t in sorted && t in after ==> t in Top(sorted))
    ensures NewestThirty(before, after)
  {
    hide NewestThirty, Outranked;
    TopIsNewestThirty(before, after, sorted);
  }

  lemma {:induction false} SubsetSize<T>(a: set<T>, b: set<T>)
    requires a <= b
    ensures |a| <= |b|
  {
    if a != {} {
      var x := ElementOf(a);
      SubsetSize(a - {x}, b - {x});
    }
  }

  // What goes is exactly what 30 others outrank, and what stays has fewer than
  // 30 newer.
  lemma NewestThirtyIff(before: Versions, after: Versions, t: int)
    requires NewestThirty(before, after) && t in before
    ensures t in after <==> !Outranked(before, t)
    ensures t in after <==> |set u | u in before && t < u| < 30
  {
    if t in after {
      forall u | u in before && t < u ensures u in after.Keys - {t} {
      }
      SubsetSize((set u | u in before && t < u), after.Keys - {t});
    } else {
      SubsetSize(after.Keys, set u | u in before && t < u);
      SubsetSize(after.Keys, before.Keys - {t});
    }
    if t in after {
      forall newer: set<int> | |newer| == KEPT_VERSIONS && newer <= before.Keys ensures !AllAbove(newer, t) {
        if AllAbove(newer, t) {
          forall u | u in newer ensures u in after.Keys - {t} {
            assert u in before && t < u;
          }
          SubsetSize(newer, after.Keys - {t});
        }
      }
    } else {
      SubsetSize(after.Keys, before.Keys - {t});
      assert AllAbove(after.Keys, t);
    }
  }

  // Where no delete failed, a run leaves more than 30 versions exactly if there
  // were 30 to begin with, and the index was put under a second none of them
  // carries.
  lemma ThirtyOneIff(before: Versions, swept: Versions, put: bool, now: int, v: IndexVal)
    requires NewestThirty(before, swept) && forall t :: t in before ==> t <= now
    ensures |if put then swept[now := v] else swept| > KEPT_VERSIONS <==>
      put && |before| >= KEPT_VERSIONS && now !in before
  {
    assert swept[now := v].Keys == swept.Keys + {now};
    if now in before {
      NewestIsKept(before, swept, now);
    }
  }

  lemma NewestIsKept(before: Versions, swept: Versions, t: int)
    requires NewestThirty(before, swept) && IsNewest(before, t)
    ensures t in swept
  {
    if t !in swept {
      SubsetSize({t}, before.Keys);
      assert swept.Keys != {};
      var u := ElementOf(swept.Keys);
    }
  }
}
