// filepath.WalkDir, as scanner.go:65-70 and verify.go:104-110 use it: which
// entries of a tree it calls back for, in which order, and where it ends.
module Walks {
  import opened Utf8
  import opened Archive

  // One directory entry as filepath.WalkDir meets it. A broken entry is one
  // whose Info or Readlink call fails; a directory that is not listed cannot
  // be read; an absent node stands for a configured path that is not there.
  datatype Node =
    | DirNode(name: Bytes, broken: bool, mode: nat, listed: bool, children: seq<Node>)
    | LinkNode(name: Bytes, broken: bool, target: Path)
    | FileNode(name: Bytes, broken: bool, mode: nat, modTime: int, size: Size)
    | OtherNode(name: Bytes, broken: bool)
    | AbsentNode(name: Bytes, broken: bool)

  // filepath.Join of a walked directory and an entry name
  function JoinName(dir: Path, name: Bytes): Path {
    if dir == [SLASH] then dir + name else dir + [SLASH] + name
  }

  // Does walking n end early, with an error?
  predicate Stops(n: Node, skip: set<Bytes>) {
    || n.AbsentNode?
    || (n.DirNode? && n.name !in skip && (!n.listed || exists i | 0 <= i < |n.children| :: Stops(n.children[i], skip)))
  }

  // The calls WalkDir makes without an error, in order; a directory on the
  // skip list is met but not entered.
  function Walk(n: Node, path: Path, skip: set<Bytes>): seq<(Path, Node)>
    decreases n
  {
    if n.AbsentNode? then []
    else [(path, n)] + if n.DirNode? && n.name !in skip && n.listed then WalkAll(n, n.children, path, skip) else []
  }

  function WalkAll(parent: Node, children: seq<Node>, path: Path, skip: set<Bytes>): seq<(Path, Node)>
    requires forall i :: 0 <= i < |children| ==> children[i] < parent
    decreases parent, |children|
  {
    if children == [] then []
    else
      var first := Walk(children[0], JoinName(path, children[0].name), skip);
      if Stops(children[0], skip) then first else first + WalkAll(parent, children[1..], path, skip)
  }

  // All the calls made for the configured paths; an error ends one walk only.
  function Visits(roots: seq<(Path, Node)>, skip: set<Bytes>): seq<(Path, Node)> {
    if roots == [] then [] else Walk(roots[0].1, roots[0].0, skip) + Visits(roots[1..], skip)
  }

  // ---- what a walk meets, by where it stands in the tree ----

  predicate EntersDir(n: Node, skip: set<Bytes>) {
    n.DirNode? && n.name !in skip && n.listed
  }

  // at leads from n through directories that are entered: the first child is
  // at[0], its child at[1], and so on.
  ghost predicate Reaches(n: Node, at: seq<nat>, skip: set<Bytes>)
    decreases |at|
  {
    at == [] || (EntersDir(n, skip) && at[0] < |n.children| && Reaches(n.children[at[0]], at[1..], skip))
  }

  ghost function NodeAt(n: Node, at: seq<nat>, skip: set<Bytes>): Node
    requires Reaches(n, at, skip)
    decreases |at|
  {
    if at == [] then n else NodeAt(n.children[at[0]], at[1..], skip)
  }

  ghost function PathAt(n: Node, path: Path, at: seq<nat>, skip: set<Bytes>): Path
    requires Reaches(n, at, skip)
    decreases |at|
  {
    if at == [] then path
    else var c := n.children[at[0]]; PathAt(c, JoinName(path, c.name), at[1..], skip)
  }

  // A directory comes before what is in it, and an entry with all that is in
  // it before the next.
  ghost predicate Before(a: seq<nat>, b: seq<nat>)
    decreases |a|
  {
    b != [] && (a == [] || a[0] < b[0] || (a[0] == b[0] && Before(a[1..], b[1..])))
  }

  // Where a walk fails: nothing there, or a directory that cannot be read.
  predicate Errs(n: Node, skip: set<Bytes>) {
    n.AbsentNode? || (n.DirNode? && n.name !in skip && !n.listed)
  }

  ghost predicate FailsAt(n: Node, at: seq<nat>, skip: set<Bytes>) {
    Reaches(n, at, skip) && Errs(NodeAt(n, at, skip), skip)
  }

  // The walk gets as far as at, and something is there.
  ghost predicate MeetsAt(n: Node, at: seq<nat>, skip: set<Bytes>) {
    && Reaches(n, at, skip) && !NodeAt(n, at, skip).AbsentNode?
    && forall b :: FailsAt(n, b, skip) ==> !Before(b, at)
  }

  ghost function At(n: Node, path: Path, at: seq<nat>, skip: set<Bytes>): (Path, Node)
    requires Reaches(n, at, skip)
  {
    (PathAt(n, path, at, skip), NodeAt(n, at, skip))
  }

  ghost predicate Met(n: Node, path: Path, skip: set<Bytes>, v: (Path, Node)) {
    exists at :: MeetsAt(n, at, skip) && v == At(n, path, at, skip)
  }

  // A walk of one of the roots meets v.
  ghost predicate MetBelow(roots: seq<(Path, Node)>, skip: set<Bytes>, v: (Path, Node)) {
    exists r | r in roots :: Met(r.1, r.0, skip, v)
  }

  lemma MetIsThere(roots: seq<(Path, Node)>, skip: set<Bytes>, v: (Path, Node))
    requires MetBelow(roots, skip, v)
    ensures !v.1.AbsentNode?
  {
  }

  // ---- one level ----

  // v is a visit of the i-th child's own walk.
  ghost predicate WalkedIn(n: Node, i: int, path: Path, skip: set<Bytes>, v: (Path, Node))
    requires n.DirNode?
  {
    0 <= i < |n.children| && v in Walk(n.children[i], JoinName(path, n.children[i].name), skip)
  }

  ghost predicate StopsBefore(n: Node, i: int, skip: set<Bytes>)
    requires n.DirNode?
  {
    exists j :: 0 <= j < i && j < |n.children| && Stops(n.children[j], skip)
  }

  lemma {:induction false} InOneChild(n: Node, children: seq<Node>, path: Path, skip: set<Bytes>, v: (Path, Node))
    returns (i: nat)
    requires forall j :: 0 <= j < |children| ==> children[j] < n
    requires v in WalkAll(n, children, path, skip)
    ensures i < |children| && v in Walk(children[i], JoinName(path, children[i].name), skip)
    ensures forall j :: 0 <= j < i ==> !Stops(children[j], skip)
    ensures forall w :: w in Walk(children[i], JoinName(path, children[i].name), skip) ==>
      w in WalkAll(n, children, path, skip)
    decreases |children|
  {
    hide Walk, Stops, JoinName;
    if v in Walk(children[0], JoinName(path, children[0].name), skip) {
      i := 0;
    } else {
      var k := InOneChild(n, children[1..], path, skip, v);
      i := k + 1;
    }
  }

  lemma {:induction false} OfOneChild(n: Node, children: seq<Node>, path: Path, skip: set<Bytes>, i: nat,
                                      v: (Path, Node))
    requires forall j :: 0 <= j < |children| ==> children[j] < n
    requires i < |children| && v in Walk(children[i], JoinName(path, children[i].name), skip)
    requires forall j :: 0 <= j < i ==> !Stops(children[j], skip)
    ensures v in WalkAll(n, children, path, skip)
    decreases |children|
  {
    hide Walk, Stops, JoinName;
    if i > 0 {
      OfOneChild(n, children[1..], path, skip, i - 1, v);
    }
  }

  // A directory that is entered is met, and of its children what their own
  // walks meet, up to and including the first that stops and none after it.
  lemma WalkOfDir(n: Node, path: Path, skip: set<Bytes>, v: (Path, Node))
    requires EntersDir(n, skip)
    ensures v in Walk(n, path, skip) <==>
      v == (path, n) || exists i :: WalkedIn(n, i, path, skip, v) && !StopsBefore(n, i, skip)
  {
    hide JoinName, Stops;
    if v in Walk(n, path, skip) && v != (path, n) {
      var i := InOneChild(n, n.children, path, skip, v);
      assert WalkedIn(n, i, path, skip, v);
    }
    if i :| WalkedIn(n, i, path, skip, v) && !StopsBefore(n, i, skip) {
      OfOneChild(n, n.children, path, skip, i, v);
    }
  }

  // ---- the whole tree ----

  lemma OneDeeper(n: Node, i: nat, at: seq<nat>, skip: set<Bytes>)
    requires EntersDir(n, skip) && i < |n.children|
    ensures Reaches(n, [i] + at, skip) <==> Reaches(n.children[i], at, skip)
    ensures Reaches(n, [i] + at, skip) ==> NodeAt(n, [i] + at, skip) == NodeAt(n.children[i], at, skip)
    ensures FailsAt(n, [i] + at, skip) <==> FailsAt(n.children[i], at, skip)
  {
    assert ([i] + at)[1..] == at;
  }

  // A walk ends with an error exactly if it reaches one.
  lemma {:induction false} StopsIff(n: Node, skip: set<Bytes>)
    ensures Stops(n, skip) <==> exists at :: FailsAt(n, at, skip)
    decreases n
  {
    if Stops(n, skip) {
      if Errs(n, skip) {
        assert FailsAt(n, [], skip);
      } else {
        var i :| 0 <= i < |n.children| && Stops(n.children[i], skip);
        StopsIff(n.children[i], skip);
        var at :| FailsAt(n.children[i], at, skip);
        OneDeeper(n, i, at, skip);
        assert FailsAt(n, [i] + at, skip);
      }
    }
    if at :| FailsAt(n, at, skip) {
      if at != [] {
        assert FailsAt(n.children[at[0]], at[1..], skip);
        StopsIff(n.children[at[0]], skip);
      }
    }
  }

  lemma {:induction false} VisitIsMet(n: Node, path: Path, skip: set<Bytes>, v: (Path, Node)) returns (at: seq<nat>)
    requires v in Walk(n, path, skip)
    ensures MeetsAt(n, at, skip) && v == At(n, path, at, skip)
    decreases n
  {
    hide JoinName, Stops;
    if v == (path, n) {
      at := [];
    } else {
      var i := InOneChild(n, n.children, path, skip, v);
      var c := n.children[i];
      var below := VisitIsMet(c, JoinName(path, c.name), skip, v);
      at := [i] + below;
      assert at[1..] == below;
      forall b | FailsAt(n, b, skip) ensures !Before(b, at) {
        if b != [] && b[0] < i {
          StopsIff(n.children[b[0]], skip);
        }
        if b != [] {
          OneDeeper(n, b[0], b[1..], skip);
          assert [b[0]] + b[1..] == b;
        }
      }
    }
  }

  lemma {:induction false} MetIsVisited(n: Node, path: Path, skip: set<Bytes>, at: seq<nat>)
    requires MeetsAt(n, at, skip)
    ensures At(n, path, at, skip) in Walk(n, path, skip)
    decreases |at|
  {
    hide JoinName, Stops;
    if at != [] {
      var i := at[0];
      var c := n.children[i];
      assert at == [i] + at[1..];
      forall j | 0 <= j < i ensures !Stops(n.children[j], skip) {
        StopsIff(n.children[j], skip);
        if b :| FailsAt(n.children[j], b, skip) {
          OneDeeper(n, j, b, skip);
        }
      }
      forall b | FailsAt(c, b, skip) ensures !Before(b, at[1..]) {
        OneDeeper(n, i, b, skip);
        assert ([i] + b)[1..] == b;
        assert Before(b, at[1..]) ==> Before([i] + b, at);
      }
      MetIsVisited(c, JoinName(path, c.name), skip, at[1..]);
      OfOneChild(n, n.children, path, skip, i, At(n, path, at, skip));
    }
  }

  // A walk visits exactly what is reached through entered directories and has
  // no error before it; on a tree without errors, everything.
  lemma WalkIff(n: Node, path: Path, skip: set<Bytes>, v: (Path, Node))
    ensures v in Walk(n, path, skip) <==> Met(n, path, skip, v)
  {
    hide Walk, PathAt, NodeAt;
    if v in Walk(n, path, skip) {
      var at := VisitIsMet(n, path, skip, v);
    }
    if Met(n, path, skip, v) {
      var at :| MeetsAt(n, at, skip) && v == At(n, path, at, skip);
      MetIsVisited(n, path, skip, at);
    }
  }

  // Where the walk of n ends well, nothing that is reached is missed.
  lemma NothingMissed(n: Node, path: Path, skip: set<Bytes>, at: seq<nat>)
    requires !Stops(n, skip) && Reaches(n, at, skip)
    ensures Met(n, path, skip, At(n, path, at, skip))
  {
    hide Stops;
    StopsIff(n, skip);
    assert !FailsAt(n, at, skip);
    assert MeetsAt(n, at, skip);
  }

  lemma {:induction false} InOneRoot(roots: seq<(Path, Node)>, skip: set<Bytes>, v: (Path, Node)) returns (j: nat)
    requires v in Visits(roots, skip)
    ensures j < |roots| && v in Walk(roots[j].1, roots[j].0, skip)
    ensures forall w :: w in Walk(roots[j].1, roots[j].0, skip) ==> w in Visits(roots, skip)
  {
    hide Walk;
    if v in Walk(roots[0].1, roots[0].0, skip) {
      j := 0;
    } else {
      var k := InOneRoot(roots[1..], skip, v);
      j := k + 1;
    }
  }

  lemma {:induction false} OfOneRoot(roots: seq<(Path, Node)>, skip: set<Bytes>, r: (Path, Node), v: (Path, Node))
    requires r in roots && v in Walk(r.1, r.0, skip)
    ensures v in Visits(roots, skip)
  {
    hide Walk;
    if roots[0] != r {
      OfOneRoot(roots[1..], skip, r, v);
    }
  }

  // An error ends one walk only: every root is walked.
  lemma VisitsIff(roots: seq<(Path, Node)>, skip: set<Bytes>, v: (Path, Node))
    ensures v in Visits(roots, skip) <==> MetBelow(roots, skip, v)
  {
    hide Walk, Visits, Met;
    if v in Visits(roots, skip) {
      var j := InOneRoot(roots, skip, v);
      WalkIff(roots[j].1, roots[j].0, skip, v);
      assert roots[j] in roots;
    }
    if r :| r in roots && Met(r.1, r.0, skip, v) {
      WalkIff(r.1, r.0, skip, v);
      OfOneRoot(roots, skip, r, v);
    }
  }
}
