// mount.go, buildMountTree: a tree of heap nodes built from the flat index.
module MountTree {
  import opened Utf8
  import opened Wrappers
  import opened ChunkKeys
  import opened Archive
  import opened Paths
  import opened MountView

  class MountDir {
    var mode: nat
    var dirs: map<Name, MountDir>
    var files: map<Name, FileInfo>
    var links: map<Name, LinkInfo>

    constructor (mode: nat)
      ensures this.mode == mode && dirs == map[] && files == map[] && links == map[]
    {
      this.mode := mode;
      dirs, files, links := map[], map[], map[];
    }

    function Shown(): DirView
      reads this
    {
      DirView(mode, files, links)
    }
  }

  // Every directory node of the tree, by its components.
  type Nodes = map<Names, MountDir>
  type Branches = map<Names, map<Name, MountDir>>

  // The nodes hang together as a tree: each is reached by exactly its own
  // components, and no two components share a node.
  ghost predicate TreeShape(nodes: Nodes, branches: Branches) {
    && [] in nodes && branches.Keys == nodes.Keys
    && (forall a, b :: a in nodes && b in nodes && nodes[a] == nodes[b] ==> a == b)
    && (forall d :: d in nodes ==> HookedAt(nodes, branches[d], d))
    && (forall d, n: Name :: d + [n] in nodes ==> d in nodes)
  }

  ghost predicate HookedAt(nodes: Nodes, children: map<Name, MountDir>, d: Names) {
    && (forall n: Name :: n in children <==> d + [n] in nodes)
    && (forall n: Name :: n in children ==> children[n] == nodes[d + [n]])
  }

  ghost function BranchesOf(nodes: Nodes): Branches
    reads nodes.Values
  {
    map d | d in nodes :: nodes[d].dirs
  }

  ghost predicate IsTree(nodes: Nodes)
    reads nodes.Values
  {
    TreeShape(nodes, BranchesOf(nodes))
  }

  ghost function ViewOf(nodes: Nodes): View
    reads nodes.Values
  {
    map d | d in nodes :: nodes[d].Shown()
  }

  // Walking down from a node by name.
  ghost function Walk(node: MountDir, cs: Names, heap: set<MountDir>): Option<MountDir>
    reads heap
    decreases |cs|
  {
    if cs == [] then Some(node)
    else if node in heap && cs[0] in node.dirs then Walk(node.dirs[cs[0]], cs[1..], heap)
    else None
  }

  // Walking from the root reaches the node of cs, or nothing.
  lemma {:induction false} WalkReaches(nodes: Nodes, d: Names, cs: Names)
    requires IsTree(nodes) && d in nodes
    ensures Walk(nodes[d], cs, nodes.Values) == if d + cs in nodes then Some(nodes[d + cs]) else None
    decreases |cs|
  {
    if cs == [] {
      assert d + cs == d;
    } else {
      assert d + cs == d + [cs[0]] + cs[1..];
      if cs[0] in nodes[d].dirs {
        WalkReaches(nodes, d + [cs[0]], cs[1..]);
      } else {
        if d + cs in nodes {
          PrefixOfNode(nodes, d + [cs[0]], cs[1..]);
        }
      }
    }
  }

  lemma {:induction false} PrefixOfNode(nodes: Nodes, d: Names, cs: Names)
    requires IsTree(nodes) && d + cs in nodes
    ensures d in nodes
    decreases |cs|
  {
    if cs == [] {
      assert d + cs == d;
    } else {
      var last := |cs| - 1;
      assert d + cs == (d + cs[..last]) + [cs[last]];
      PrefixOfNode(nodes, d, cs[..last]);
    }
  }

  ghost predicate Extends(nodes: Nodes, nodes': Nodes) {
    forall d :: d in nodes ==> d in nodes' && nodes'[d] == nodes[d]
  }

  ghost function Branched(branches: Branches, at: Names, n: Name, next: MountDir): Branches
    requires at in branches
    ensures Branched(branches, at, n, next).Keys == branches.Keys + {at + [n]}
    ensures Branched(branches, at, n, next)[at + [n]] == map[]
    ensures forall e :: e in branches && e != at && e != at + [n] ==> Branched(branches, at, n, next)[e] == branches[e]
    ensures Branched(branches, at, n, next)[at] == branches[at] + map[n := next]
  {
    assert at + [n] != at by { assert |at + [n]| == |at| + 1; }
    var here: map<Name, MountDir> := branches[at];
    var grown: map<Name, MountDir> := here + map[n := next];
    branches[at := grown][at + [n] := map[]]
  }

  lemma NewBranch(nodes: Nodes, branches: Branches, at: Names, n: Name, next: MountDir)
    requires TreeShape(nodes, branches) && at in nodes && at + [n] !in nodes
    requires forall d :: d in nodes ==> nodes[d] != next
    ensures TreeShape(nodes[at + [n] := next], Branched(branches, at, n, next))
  {
    hide Branched, HookedAt;
    var below := at + [n];
    var nodes', branches' := nodes[below := next], Branched(branches, at, n, next);
    assert below != at by { assert |below| == |at| + 1; }
    forall d | d in nodes' ensures HookedAt(nodes', branches'[d], d) {
      if d == below {
        LeafIsHooked(nodes, at, n, next);
      } else {
        HookedStill(nodes, branches[d], at, n, next, d);
      }
    }
    forall d, m: Name | d + [m] in nodes' ensures d in nodes' {
      LastOfNames(d, m, at, n);
    }
  }

  lemma HookedStill(nodes: Nodes, children: map<Name, MountDir>, at: Names, n: Name, next: MountDir, d: Names)
    requires HookedAt(nodes, children, d) && at + [n] !in nodes
    ensures HookedAt(nodes[at + [n] := next], if d == at then children + map[n := next] else children, d)
  {
    forall m: Name ensures d + [m] == at + [n] <==> d == at && m == n {
      LastOfNames(d, m, at, n);
    }
  }

  lemma LeafIsHooked(nodes: Nodes, at: Names, n: Name, next: MountDir)
    requires at + [n] !in nodes && forall d, m: Name :: d + [m] in nodes ==> d in nodes
    ensures HookedAt(nodes[at + [n] := next], map[], at + [n])
  {
    forall m: Name ensures at + [n] + [m] !in nodes[at + [n] := next] {
      assert |at + [n] + [m]| == |at + [n]| + 1;
    }
  }

  lemma LastOfNames(d: Names, m: Name, at: Names, n: Name)
    ensures d + [m] == at + [n] <==> d == at && m == n
  {
    if d + [m] == at + [n] {
      assert (d + [m])[..|d|] == d && (at + [n])[..|at|] == at;
      assert (d + [m])[|d|] == m && (at + [n])[|at|] == n;
    }
  }

  lemma ViewIs(nodes: Nodes, v: View)
    requires v.Keys == nodes.Keys && forall d :: d in nodes ==> nodes[d].Shown() == v[d]
    ensures ViewOf(nodes) == v
  {
  }

  lemma BranchesAre(nodes: Nodes, branches: Branches)
    requires branches.Keys == nodes.Keys && forall d :: d in nodes ==> nodes[d].dirs == branches[d]
    ensures BranchesOf(nodes) == branches
  {
  }

  // A new empty directory n below d.
  method AddChild(d: MountDir, n: Name, ghost at: Names, ghost nodes: Nodes)
    returns (next: MountDir, ghost nodes': Nodes)
    requires IsTree(nodes) && at in nodes && nodes[at] == d && n !in d.dirs
    modifies d`dirs
    ensures fresh(next) && nodes' == nodes[at + [n] := next] && at + [n] !in nodes && IsTree(nodes')
    ensures ViewOf(nodes') == old(ViewOf(nodes))[at + [n] := EMPTY_DIR]
  {
    hide TreeShape, Branched;
    ghost var branches, view := BranchesOf(nodes), ViewOf(nodes);
    BranchIff(nodes, branches, at, n);
    OwnNode(nodes, branches);
    var old0 := d.dirs;
    next := new MountDir(DEFAULT_MODE);
    d.dirs := d.dirs[n := next];
    assert d.dirs == old0 + map[n := next];
    nodes' := nodes[at + [n] := next];
    NewBranch(nodes, branches, at, n, next);
    ChildAdded(nodes, branches, view, at, n, next);
  }

  lemma ChildAdded(nodes: Nodes, branches: Branches, view: View, at: Names, n: Name, next: MountDir)
    requires branches.Keys == view.Keys == nodes.Keys && at in nodes && at + [n] !in nodes
    requires forall e :: e in nodes ==> nodes[e].Shown() == view[e]
    requires forall e :: e in nodes && e != at ==> nodes[e].dirs == branches[e]
    requires nodes[at].dirs == branches[at] + map[n := next]
    requires next.dirs == map[] && next.Shown() == EMPTY_DIR
    ensures ViewOf(nodes[at + [n] := next]) == view[at + [n] := EMPTY_DIR]
    ensures BranchesOf(nodes[at + [n] := next]) == Branched(branches, at, n, next)
  {
    hide Branched;
    var nodes' := nodes[at + [n] := next];
    ViewIs(nodes', view[at + [n] := EMPTY_DIR]);
    BranchesAre(nodes', Branched(branches, at, n, next));
  }

  lemma BranchIff(nodes: Nodes, branches: Branches, at: Names, n: Name)
    requires TreeShape(nodes, branches) && at in nodes
    ensures at in branches && (n in branches[at] <==> at + [n] in nodes)
    ensures n in branches[at] ==> branches[at][n] == nodes[at + [n]]
  {
  }

  lemma OwnNode(nodes: Nodes, branches: Branches)
    requires TreeShape(nodes, branches)
    ensures [] in nodes && branches.Keys == nodes.Keys
    ensures forall a, b :: a in nodes && b in nodes && nodes[a] == nodes[b] ==> a == b
  {
  }

  // One component further along a path.
  lemma LineageStep(v: View, parts: Names, i: nat)
    requires i < |parts|
    ensures var w := WithDirs(v, Lineage(parts[..i]));
      WithDirs(v, Lineage(parts[..i + 1])) == if parts[..i + 1] in w then w else w[parts[..i + 1] := EMPTY_DIR]
  {
    LineageGrows(parts, i);
    hide Lineage;
  }

  lemma LineageGrows(parts: Names, i: nat)
    requires i < |parts|
    ensures Lineage(parts[..i + 1]) == Lineage(parts[..i]) + {parts[..i + 1]}
  {
    var a, b := parts[..i], parts[..i + 1];
    forall j | 0 <= j <= i ensures a[..j] == b[..j] {}
    assert b[..i + 1] == b;
    forall x | x in Lineage(b) ensures x in Lineage(a) + {b} {
      var j :| 0 <= j <= |b| && x == b[..j];
      assert j <= i ==> x == a[..j];
    }
    forall x | x in Lineage(a) ensures x in Lineage(b) {
      var j :| 0 <= j <= |a| && x == a[..j];
      assert x == b[..j];
    }
  }

  // ensureDir for the components of a clean path.
  method EnsureDir(root: MountDir, parts: Names, mode: nat, ghost nodes: Nodes)
    returns (current: MountDir, ghost nodes': Nodes)
    requires IsTree(nodes) && [] in nodes && nodes[[]] == root
    modifies nodes.Values
    ensures IsTree(nodes') && Extends(nodes, nodes') && fresh(nodes'.Values - nodes.Values)
    ensures parts in nodes' && current == nodes'[parts]
    ensures ViewOf(nodes') == Ensured(old(ViewOf(nodes)), parts, mode)
  {
    hide TreeShape, Lineage, WithDirs, ViewOf, Ensured;
    current, nodes' := root, nodes;
    ghost var v := ViewOf(nodes);
    ghost var made: set<MountDir> := {};
    EnsuredStarts(nodes, v, parts, mode);
    for i := 0 to |parts|
      invariant IsTree(nodes') && Extends(nodes, nodes')
      invariant fresh(made) && nodes'.Values <= nodes.Values + made
      invariant parts[..i] in nodes' && current == nodes'[parts[..i]]
      invariant ViewOf(nodes') == EnsuredUpTo(v, parts, mode, i)
    {
      var part := parts[i];
      assert parts[..i] + [part] == parts[..i + 1];
      EnsuredStep(v, parts, mode, i);
      BranchIff(nodes', BranchesOf(nodes'), parts[..i], part);
      ViewKeys(nodes');
      var next;
      if part in current.dirs {
        next := current.dirs[part];
      } else {
        next, nodes' := AddChild(current, part, parts[..i], nodes');
        made := made + {next};
      }
      if i == |parts| - 1 && mode != 0 {
        ViewKeys(nodes');
        SetMode(next, mode, parts[..i + 1], nodes');
      }
      current := next;
    }
    assert parts[..|parts|] == parts;
  }

  lemma ViewKeys(nodes: Nodes)
    ensures ViewOf(nodes).Keys == nodes.Keys
  {
  }

  // The view once ensureDir has dealt with i components.
  ghost function EnsuredUpTo(v: View, parts: Names, mode: nat, i: nat): View
    requires i <= |parts|
  {
    if i == |parts| then Ensured(v, parts, mode) else WithDirs(v, Lineage(parts[..i]))
  }

  lemma EnsuredStarts(nodes: Nodes, v: View, parts: Names, mode: nat)
    requires v == ViewOf(nodes) && [] in nodes
    ensures EnsuredUpTo(v, parts, mode, 0) == v
  {
  }

  lemma EnsuredStep(v: View, parts: Names, mode: nat, i: nat)
    requires i < |parts|
    ensures var w := EnsuredUpTo(v, parts, mode, i);
      var w1 := if parts[..i + 1] in w then w else w[parts[..i + 1] := EMPTY_DIR];
      EnsuredUpTo(v, parts, mode, i + 1) ==
        if i == |parts| - 1 && mode != 0 then w1[parts[..i + 1] := w1[parts[..i + 1]].(mode := mode)] else w1
  {
    LineageStep(v, parts, i);
    if i + 1 == |parts| {
      assert parts[..i + 1] == parts;
    }
  }

  method SetMode(d: MountDir, mode: nat, ghost at: Names, ghost nodes: Nodes)
    requires IsTree(nodes) && at in nodes && nodes[at] == d
    modifies d`mode
    ensures IsTree(nodes)
    ensures ViewOf(nodes) == old(ViewOf(nodes))[at := old(ViewOf(nodes))[at].(mode := mode)]
  {
    hide TreeShape;
    OwnNode(nodes, BranchesOf(nodes));
    ghost var branches, view := BranchesOf(nodes), ViewOf(nodes);
    d.mode := mode;
    ViewIs(nodes, view[at := view[at].(mode := mode)]);
    BranchesAre(nodes, branches);
  }

  method PutFile(d: MountDir, n: Name, fi: FileInfo, ghost at: Names, ghost nodes: Nodes)
    requires IsTree(nodes) && at in nodes && nodes[at] == d
    modifies d`files
    ensures IsTree(nodes)
    ensures at in old(ViewOf(nodes)) && ViewOf(nodes) == AddFile(old(ViewOf(nodes)), at, n, fi)
  {
    hide TreeShape;
    OwnNode(nodes, BranchesOf(nodes));
    ghost var branches, view := BranchesOf(nodes), ViewOf(nodes);
    d.files := d.files[n := fi];
    ViewIs(nodes, AddFile(view, at, n, fi));
    BranchesAre(nodes, branches);
  }

  method PutLink(d: MountDir, n: Name, li: LinkInfo, ghost at: Names, ghost nodes: Nodes)
    requires IsTree(nodes) && at in nodes && nodes[at] == d
    modifies d`links
    ensures IsTree(nodes)
    ensures at in old(ViewOf(nodes)) && ViewOf(nodes) == AddLink(old(ViewOf(nodes)), at, n, li)
  {
    hide TreeShape;
    OwnNode(nodes, BranchesOf(nodes));
    ghost var branches, view := BranchesOf(nodes), ViewOf(nodes);
    d.links := d.links[n := li];
    ViewIs(nodes, AddLink(view, at, n, li));
    BranchesAre(nodes, branches);
  }

  // ---- splitting paths ----

  function NonEmpty(parts: seq<Bytes>): seq<Bytes> {
    if parts == [] then [] else (if parts[0] == [] then [] else [parts[0]]) + NonEmpty(parts[1..])
  }

  method SplitNonEmpty(s: Bytes, sep: byte) returns (raw: seq<Bytes>)
    ensures raw == NonEmpty(Split(s, sep))
  {
    hide Split, NonEmpty;
    raw := [];
    var start := 0;
    var i := 0;
    assert s[0..] == s;
    while i <= |s|
      invariant 0 <= i <= |s| + 1 && start <= i
      invariant i <= |s| ==> sep !in s[start..i] && NonEmpty(Split(s, sep)) == raw + NonEmpty(Split(s[start..], sep))
      invariant i == |s| + 1 ==> raw == NonEmpty(Split(s, sep))
    {
      if i == |s| || s[i] == sep {
        PieceEnds(s, sep, start, i);
        if start < i {
          raw := raw + [s[start..i]];
        }
        start := i + 1;
      } else {
        assert s[start..i + 1] == s[start..i] + [s[i]];
      }
      i := i + 1;
    }
  }

  lemma PieceEnds(s: Bytes, sep: byte, start: nat, i: nat)
    requires start <= i <= |s| && sep !in s[start..i] && (i == |s| || s[i] == sep)
    ensures NonEmpty(Split(s[start..], sep)) ==
      (if start < i then [s[start..i]] else []) + (if i == |s| then [] else NonEmpty(Split(s[i + 1..], sep)))
  {
    var piece := s[start..i];
    if i == |s| {
      assert s[start..] == piece;
      SplitPlain(piece, sep);
      var none: seq<Bytes> := [];
      assert [piece][1..] == none;
    } else {
      assert s[start..] == piece + [sep] + s[i + 1..];
      SplitFirst(piece, sep, s[i + 1..]);
      var rest := Split(s[i + 1..], sep);
      assert ([piece] + rest)[1..] == rest;
    }
  }

  lemma {:induction false} NamesAreNonEmpty(cs: Names)
    ensures NonEmpty(cs) == cs
  {
    if cs != [] {
      NamesAreNonEmpty(cs[1..]);
      assert cs == [cs[0]] + cs[1..];
    }
  }

  method SplitMountPath(p: Path) returns (parts: Names)
    requires IsClean(p)
    ensures parts == CompsOf(p)
  {
    ghost var cs := CompsOf(p);
    CompsOfPath([]);
    if p == ROOT {
      return [];
    }
    SplitRender(cs);
    NamesAreNonEmpty(cs);
    var raw := SplitNonEmpty(p[1..], SLASH);
    parts := raw;
  }

  // ---- the whole tree ----

  ghost predicate Built(root: MountDir, nodes: Nodes, e: Entries)
    reads nodes.Values
  {
    IsTree(nodes) && [] in nodes && nodes[[]] == root && Shows(ViewOf(nodes), e)
  }

  // ensureDir of the parent and of the directory itself.
  method PutDir(root: MountDir, p: Path, info: DirInfo, ghost nodes: Nodes, ghost e: Entries)
    returns (ghost nodes': Nodes)
    requires Built(root, nodes, e) && IsClean(p) && p !in e.dirs
    modifies nodes.Values
    ensures fresh(nodes'.Values - nodes.Values)
    ensures Built(root, nodes', e.(dirs := e.dirs[p := info]))
  {
    hide TreeShape, Shows, ViewOf, Ensured, Dir;
    DirShown(ViewOf(nodes), e, p, info);
    DirIsClean(p);
    var above := SplitMountPath(Dir(p));
    var parts := SplitMountPath(p);
    var _, nodes1 := EnsureDir(root, above, 0, nodes);
    var _, nodes2 := EnsureDir(root, parts, info.mode, nodes1);
    nodes' := nodes2;
  }

  lemma DirIsClean(p: Path)
    requires IsClean(p)
    ensures IsClean(Dir(p))
  {
    DirAndBaseOfRoot();
    if p != ROOT {
      var d, n := TakeApart(p);
      CompsOfPath(d);
    }
  }

  // ensureDir of the parent, and the file in it.
  method PlaceFile(root: MountDir, p: Path, fi: FileInfo, ghost nodes: Nodes, ghost e: Entries)
    returns (ghost nodes': Nodes)
    requires Built(root, nodes, e) && IsClean(p) && p != ROOT && p !in e.files
    modifies nodes.Values
    ensures fresh(nodes'.Values - nodes.Values)
    ensures Built(root, nodes', e.(files := e.files[p := fi]))
  {
    hide TreeShape, Shows, ViewOf, Ensured, Dir, Base, PathOf;
    ghost var d, n := TakeApart(p);
    FileShown(ViewOf(nodes), e, d, n, fi);
    DirIsClean(p);
    var above := SplitMountPath(Dir(p));
    var parent;
    parent, nodes' := EnsureDir(root, above, 0, nodes);
    PutFile(parent, Base(p), fi, d, nodes');
  }

  method PlaceLink(root: MountDir, p: Path, li: LinkInfo, ghost nodes: Nodes, ghost e: Entries)
    returns (ghost nodes': Nodes)
    requires Built(root, nodes, e) && IsClean(p) && p != ROOT && p !in e.links
    modifies nodes.Values
    ensures fresh(nodes'.Values - nodes.Values)
    ensures Built(root, nodes', e.(links := e.links[p := li]))
  {
    hide TreeShape, Shows, ViewOf, Ensured, Dir, Base, PathOf;
    ghost var d, n := TakeApart(p);
    LinkShown(ViewOf(nodes), e, d, n, li);
    DirIsClean(p);
    var above := SplitMountPath(Dir(p));
    var parent;
    parent, nodes' := EnsureDir(root, above, 0, nodes);
    PutLink(parent, Base(p), li, d, nodes');
  }

  lemma RootBuilt(root: MountDir, nodes: Nodes)
    requires nodes == map[[] := root] && root.dirs == map[] && root.Shown() == EMPTY_DIR
    ensures Built(root, nodes, NO_ENTRIES)
  {
  }

  // buildMountTree; the order of the three ranges does not matter.
  method BuildMountTree(entries: Entries) returns (root: MountDir, ghost nodes: Nodes)
    requires WellPathed(entries)
    ensures fresh(nodes.Values) && Built(root, nodes, entries)
  {
    hide Built, IsClean;
    root := new MountDir(DEFAULT_MODE);
    nodes := map[[] := root];
    RootBuilt(root, nodes);
    var todo := entries.dirs.Keys;
    assert entries.dirs - todo == map[];
    while todo != {}
      invariant todo <= entries.dirs.Keys && fresh(nodes.Values)
      invariant Built(root, nodes, Entries(map[], entries.dirs - todo, map[]))
      decreases todo
    {
      ghost var some := ElementOf(todo);
      var p :| p in todo;
      OneLess(entries.dirs, todo, p);
      nodes := PutDir(root, p, entries.dirs[p], nodes, Entries(map[], entries.dirs - todo, map[]));
      todo := todo - {p};
    }
    assert entries.dirs - todo == entries.dirs;
    todo := entries.files.Keys;
    assert entries.files - todo == map[];
    while todo != {}
      invariant todo <= entries.files.Keys && fresh(nodes.Values)
      invariant Built(root, nodes, Entries(entries.files - todo, entries.dirs, map[]))
      decreases todo
    {
      ghost var some := ElementOf(todo);
      var p :| p in todo;
      OneLess(entries.files, todo, p);
      nodes := PlaceFile(root, p, entries.files[p], nodes, Entries(entries.files - todo, entries.dirs, map[]));
      todo := todo - {p};
    }
    assert entries.files - todo == entries.files;
    todo := entries.links.Keys;
    assert entries.links - todo == map[];
    while todo != {}
      invariant todo <= entries.links.Keys && fresh(nodes.Values)
      invariant Built(root, nodes, Entries(entries.files, entries.dirs, entries.links - todo))
      decreases todo
    {
      ghost var some := ElementOf(todo);
      var p :| p in todo;
      OneLess(entries.links, todo, p);
      nodes := PlaceLink(root, p, entries.links[p], nodes, Entries(entries.files, entries.dirs, entries.links - todo));
      todo := todo - {p};
    }
    assert entries.links - todo == entries.links;
  }

  // ---- what a reader of the mount sees ----

  // Walking to where a clean path points finds the file there exactly if the
  // index has it, with the same information; likewise for links.
  lemma WalkFindsEntries(root: MountDir, nodes: Nodes, e: Entries, p: Path)
    requires Built(root, nodes, e) && IsClean(p) && p != ROOT
    ensures var at := Walk(root, CompsOf(Dir(p)), nodes.Values);
      && (p in e.files <==> at.Some? && Base(p) in at.value.files)
      && (p in e.files ==> at.value.files[Base(p)] == e.files[p])
      && (p in e.links <==> at.Some? && Base(p) in at.value.links)
      && (p in e.links ==> at.value.links[Base(p)] == e.links[p])
  {
    hide TreeShape, Walk, PathOf, Dir, Base, NodeSet, CompsOf, IsClean;
    var d, n := TakeApart(p);
    WalkReaches(nodes, [], d);
    assert [] + d == d;
    ViewKeys(nodes);
    if d in nodes {
      assert ViewOf(nodes)[d] == nodes[d].Shown();
      assert ShowsAt(nodes[d].Shown(), e, d);
    } else {
      AbsentIsEmpty(e, d);
    }
  }

  // The directories are the root, the indexed directories and everything
  // above an entry; modes are the recorded ones where they are not zero.
  lemma WalkFindsDirs(root: MountDir, nodes: Nodes, e: Entries, d: Names)
    requires Built(root, nodes, e)
    ensures Walk(root, d, nodes.Values).Some? <==>
      || d == []
      || (exists p :: p in e.dirs && d <= CompsOf(p))
      || (exists p :: p in e.files.Keys + e.links.Keys && d <= CompsOf(Dir(p)))
    // its mode, or 0555
    ensures Walk(root, d, nodes.Values).Some? ==>
      var moded := d != [] && PathOf(d) in e.dirs && e.dirs[PathOf(d)].mode != 0;
      Walk(root, d, nodes.Values).value.mode == if moded then e.dirs[PathOf(d)].mode else 5 * 64 + 5 * 8 + 5
  {
    hide TreeShape, Walk, PathOf, Dir, CompsOf, NodeSet;
    WalkReaches(nodes, [], d);
    assert [] + d == d;
    ViewKeys(nodes);
    NodeSetMembers(e.dirs.Keys, e.files.Keys + e.links.Keys, d);
    if d in nodes {
      assert ViewOf(nodes)[d] == nodes[d].Shown();
    }
  }
}
