// mount.go, buildMountTree, seen from above: what each directory of the tree
// shows, by its components.
module MountView {
  import opened Archive
  import opened Paths

  const DEFAULT_MODE := 365 // 0555

  datatype DirView = DirView(mode: nat, files: map<Name, FileInfo>, links: map<Name, LinkInfo>)

  type View = map<Names, DirView>

  const EMPTY_DIR := DirView(DEFAULT_MODE, map[], map[])

  // A directory and all its ancestors.
  function Lineage(cs: Names): (r: set<Names>)
    ensures [] in r && cs in r
  {
    assert cs[..0] == [] && cs[..|cs|] == cs;
    set i | 0 <= i <= |cs| :: cs[..i]
  }

  function WithDirs(v: View, dirs: set<Names>): View {
    v + map d | d in dirs && d !in v :: EMPTY_DIR
  }

  // What ensureDir makes of a view.
  function Ensured(v: View, cs: Names, mode: nat): View {
    var w := WithDirs(v, Lineage(cs));
    if cs != [] && mode != 0 then w[cs := w[cs].(mode := mode)] else w
  }

  // ---- what the tree must show ----

  ghost function Lineages(paths: set<Path>): set<Names> {
    set p, d | p in paths && d in Lineage(CompsOf(p)) :: d
  }

  // The directories above the given entries.
  ghost function Parents(paths: set<Path>): set<Path> {
    set p | p in paths :: Dir(p)
  }

  ghost function NodeSet(dirs: set<Path>, entries: set<Path>): set<Names> {
    {[]} + Lineages(dirs) + Lineages(Parents(entries))
  }

  function ModeOf(dirs: Dirs, d: Names): nat {
    if d != [] && PathOf(d) in dirs && dirs[PathOf(d)].mode != 0 then dirs[PathOf(d)].mode else DEFAULT_MODE
  }

  // The directory d of the tree shows exactly the given entries.
  ghost predicate ShowsAt(x: DirView, e: Entries, d: Names) {
    && x.mode == ModeOf(e.dirs, d)
    && (forall n: Name :: n in x.files <==> PathOf(d + [n]) in e.files)
    && (forall n: Name :: n in x.files ==> x.files[n] == e.files[PathOf(d + [n])])
    && (forall n: Name :: n in x.links <==> PathOf(d + [n]) in e.links)
    && (forall n: Name :: n in x.links ==> x.links[n] == e.links[PathOf(d + [n])])
  }

  ghost predicate Shows(v: View, e: Entries) {
    && v.Keys == NodeSet(e.dirs.Keys, e.files.Keys + e.links.Keys)
    && forall d :: d in v ==> ShowsAt(v[d], e, d)
  }

  lemma ShownAtOneWay(x: DirView, y: DirView, e: Entries, d: Names)
    requires ShowsAt(x, e, d) && ShowsAt(y, e, d)
    ensures x == y
  {
  }

  // Two views of the same entries are the same: nothing depends on the order
  // in which they were built.
  lemma ShownOneWay(v: View, w: View, e: Entries)
    requires Shows(v, e) && Shows(w, e)
    ensures v == w
  {
    hide NodeSet, ShowsAt;
    forall d | d in v ensures v[d] == w[d] {
      ShownAtOneWay(v[d], w[d], e, d);
    }
  }

  // Clean absolute paths, and no file or link where only a directory can be.
  ghost predicate WellPathed(e: Entries) {
    && (forall p :: p in e.dirs ==> IsClean(p))
    && (forall p :: p in e.files ==> IsClean(p) && p != ROOT)
    && (forall p :: p in e.links ==> IsClean(p) && p != ROOT)
  }

  // ---- one entry at a time ----

  lemma LineagesAdd(paths: set<Path>, p: Path)
    ensures Lineages(paths + {p}) == Lineages(paths) + Lineage(CompsOf(p))
  {
  }

  // A clean path other than the root, taken apart.
  lemma TakeApart(p: Path) returns (d: Names, n: Name)
    requires IsClean(p) && p != ROOT
    ensures p == PathOf(d + [n]) && CompsOf(p) == d + [n]
    ensures Dir(p) == PathOf(d) && CompsOf(Dir(p)) == d && Base(p) == n
  {
    var cs := CompsOf(p);
    d, n := cs[..|cs| - 1], cs[|cs| - 1];
    assert cs == d + [n];
    DirAndBase(d, n);
    CompsOfPath(d);
  }

  lemma ParentLineage(p: Path)
    requires IsClean(p)
    ensures Lineage(CompsOf(Dir(p))) <= Lineage(CompsOf(p))
  {
    DirAndBaseOfRoot();
    if p != ROOT {
      var d, n := TakeApart(p);
      forall x | x in Lineage(d) ensures x in Lineage(d + [n]) {
        var i :| 0 <= i <= |d| && x == d[..i];
        assert x == (d + [n])[..i];
      }
    }
  }

  lemma NodesOfEntries(dirs: set<Path>, entries: set<Path>, p: Path)
    ensures p in dirs ==> CompsOf(p) in NodeSet(dirs, entries)
    ensures p in entries ==> CompsOf(Dir(p)) in NodeSet(dirs, entries)
  {
    assert CompsOf(p) in Lineage(CompsOf(p));
    if p in entries {
      assert Dir(p) in Parents(entries) && CompsOf(Dir(p)) in Lineage(CompsOf(Dir(p)));
    }
  }

  // Where the tree has no directory, the entries have nothing.
  lemma AbsentIsEmpty(e: Entries, d: Names)
    requires d !in NodeSet(e.dirs.Keys, e.files.Keys + e.links.Keys)
    ensures PathOf(d) !in e.dirs && ShowsAt(EMPTY_DIR, e, d)
  {
    hide NodeSet, PathOf, CompsOf, Dir;
    CompsOfPath(d);
    NodesOfEntries(e.dirs.Keys, e.files.Keys + e.links.Keys, PathOf(d));
    forall n: Name ensures PathOf(d + [n]) !in e.files.Keys + e.links.Keys {
      DirAndBase(d, n);
      NodesOfEntries(e.dirs.Keys, e.files.Keys + e.links.Keys, PathOf(d + [n]));
    }
  }

  lemma WithDirsShows(v: View, e: Entries, dirs: set<Names>, d: Names)
    requires Shows(v, e) && d in WithDirs(v, dirs)
    ensures ShowsAt(WithDirs(v, dirs)[d], e, d)
  {
    hide NodeSet, ShowsAt;
    if d !in v {
      AbsentIsEmpty(e, d);
    }
  }

  lemma NodeSetAddDir(dirs: set<Path>, entries: set<Path>, p: Path)
    ensures NodeSet(dirs + {p}, entries) == NodeSet(dirs, entries) + Lineage(CompsOf(p))
  {
  }

  lemma NodeSetAddEntry(dirs: set<Path>, entries: set<Path>, p: Path)
    ensures NodeSet(dirs, entries + {p}) == NodeSet(dirs, entries) + Lineage(CompsOf(Dir(p)))
  {
  }

  lemma DirShowsAt(x: DirView, e: Entries, d: Names, p: Path, info: DirInfo)
    requires ShowsAt(x, e, d) && p !in e.dirs && IsClean(p)
    ensures var e' := e.(dirs := e.dirs[p := info]);
      if PathOf(d) == p && d != [] && info.mode != 0 then ShowsAt(x.(mode := info.mode), e', d) else ShowsAt(x, e', d)
  {
    hide PathOf;
  }

  lemma WithDirsTwice(v: View, a: set<Names>, b: set<Names>)
    requires a <= b
    ensures WithDirs(WithDirs(v, a), b) == WithDirs(v, b)
  {
  }

  // The two ensureDir calls for a directory of the index.
  lemma DirShown(v: View, e: Entries, p: Path, info: DirInfo)
    requires Shows(v, e) && IsClean(p) && p !in e.dirs
    ensures Shows(Ensured(Ensured(v, CompsOf(Dir(p)), 0), CompsOf(p), info.mode), e.(dirs := e.dirs[p := info]))
  {
    hide ShowsAt, PathOf, NodeSet, Lineage, Dir;
    var cs := CompsOf(p);
    var e' := e.(dirs := e.dirs[p := info]);
    var w := Ensured(Ensured(v, CompsOf(Dir(p)), 0), cs, info.mode);
    var u := WithDirs(v, Lineage(cs));
    ParentLineage(p);
    WithDirsTwice(v, Lineage(CompsOf(Dir(p))), Lineage(cs));
    NodeSetAddDir(e.dirs.Keys, e.files.Keys + e.links.Keys, p);
    assert e'.dirs.Keys == e.dirs.Keys + {p};
    forall d | d in w ensures ShowsAt(w[d], e', d) {
      WithDirsShows(v, e, Lineage(cs), d);
      DirShowsAt(u[d], e, d, p, info);
      CompsOfPath(d);
    }
  }

  function AddFile(v: View, d: Names, n: Name, fi: FileInfo): View
    requires d in v
  {
    v[d := v[d].(files := v[d].files[n := fi])]
  }

  function AddLink(v: View, d: Names, n: Name, li: LinkInfo): View
    requires d in v
  {
    v[d := v[d].(links := v[d].links[n := li])]
  }

  lemma SamePathSameParts(d: Names, n: Name, d': Names, n': Name)
    ensures PathOf(d + [n]) == PathOf(d' + [n']) <==> d == d' && n == n'
  {
    if PathOf(d + [n]) == PathOf(d' + [n']) {
      PathOfInjective(d + [n], d' + [n']);
      assert (d + [n])[|d|] == n && (d + [n])[..|d|] == d;
      assert (d' + [n'])[|d'|] == n' && (d' + [n'])[..|d'|] == d';
    }
  }

  lemma FileShowsAt(x: DirView, e: Entries, d: Names, at: Names, n: Name, fi: FileInfo)
    requires ShowsAt(x, e, d) && PathOf(at + [n]) !in e.files
    ensures var e' := e.(files := e.files[PathOf(at + [n]) := fi]);
      ShowsAt(if d == at then x.(files := x.files[n := fi]) else x, e', d)
  {
    hide PathOf;
    forall m: Name ensures PathOf(d + [m]) == PathOf(at + [n]) <==> d == at && m == n {
      SamePathSameParts(d, m, at, n);
    }
  }

  lemma LinkShowsAt(x: DirView, e: Entries, d: Names, at: Names, n: Name, li: LinkInfo)
    requires ShowsAt(x, e, d) && PathOf(at + [n]) !in e.links
    ensures var e' := e.(links := e.links[PathOf(at + [n]) := li]);
      ShowsAt(if d == at then x.(links := x.links[n := li]) else x, e', d)
  {
    hide PathOf;
    forall m: Name ensures PathOf(d + [m]) == PathOf(at + [n]) <==> d == at && m == n {
      SamePathSameParts(d, m, at, n);
    }
  }

  // ensureDir of the parent, then the file put into it.
  lemma FileShown(v: View, e: Entries, d: Names, n: Name, fi: FileInfo)
    requires Shows(v, e) && PathOf(d + [n]) !in e.files
    ensures d in Ensured(v, d, 0)
    ensures Shows(AddFile(Ensured(v, d, 0), d, n, fi), e.(files := e.files[PathOf(d + [n]) := fi]))
  {
    hide ShowsAt, PathOf, NodeSet, Lineage, Dir;
    var p := PathOf(d + [n]);
    var e' := e.(files := e.files[p := fi]);
    DirAndBase(d, n);
    CompsOfPath(d);
    NodeSetAddEntry(e.dirs.Keys, e.files.Keys + e.links.Keys, p);
    assert e'.files.Keys + e'.links.Keys == e.files.Keys + e.links.Keys + {p};
    var w := AddFile(Ensured(v, d, 0), d, n, fi);
    forall x | x in w ensures ShowsAt(w[x], e', x) {
      WithDirsShows(v, e, Lineage(d), x);
      FileShowsAt(Ensured(v, d, 0)[x], e, x, d, n, fi);
    }
  }

  lemma LinkShown(v: View, e: Entries, d: Names, n: Name, li: LinkInfo)
    requires Shows(v, e) && PathOf(d + [n]) !in e.links
    ensures d in Ensured(v, d, 0)
    ensures Shows(AddLink(Ensured(v, d, 0), d, n, li), e.(links := e.links[PathOf(d + [n]) := li]))
  {
    hide ShowsAt, PathOf, NodeSet, Lineage, Dir;
    var p := PathOf(d + [n]);
    var e' := e.(links := e.links[p := li]);
    DirAndBase(d, n);
    CompsOfPath(d);
    NodeSetAddEntry(e.dirs.Keys, e.files.Keys + e.links.Keys, p);
    assert e'.files.Keys + e'.links.Keys == e.files.Keys + e.links.Keys + {p};
    var w := AddLink(Ensured(v, d, 0), d, n, li);
    forall x | x in w ensures ShowsAt(w[x], e', x) {
      WithDirsShows(v, e, Lineage(d), x);
      LinkShowsAt(Ensured(v, d, 0)[x], e, x, d, n, li);
    }
  }

  lemma LineageIsPrefixes(cs: Names, d: Names)
    ensures d in Lineage(cs) <==> d <= cs
  {
    if d <= cs {
      assert d == cs[..|d|];
    }
  }

  lemma LineagesMembers(paths: set<Path>, d: Names)
    ensures d in Lineages(paths) <==> exists p :: p in paths && d <= CompsOf(p)
  {
    hide Lineage, CompsOf;
    if d in Lineages(paths) {
      var p :| p in paths && d in Lineage(CompsOf(p));
      LineageIsPrefixes(CompsOf(p), d);
    }
    if p :| p in paths && d <= CompsOf(p) {
      LineageIsPrefixes(CompsOf(p), d);
    }
  }

  lemma LineagesClosed(paths: set<Path>, c: Names, d: Names)
    requires d in Lineages(paths) && c <= d
    ensures c in Lineages(paths)
  {
    hide Lineages, CompsOf;
    LineagesMembers(paths, d);
    LineagesMembers(paths, c);
  }

  lemma NodeSetMembers(dirs: set<Path>, entries: set<Path>, d: Names)
    ensures d in NodeSet(dirs, entries) <==>
      || d == []
      || (exists p :: p in dirs && d <= CompsOf(p))
      || (exists p :: p in entries && d <= CompsOf(Dir(p)))
  {
    hide Lineages, CompsOf, Dir;
    LineagesMembers(dirs, d);
    LineagesMembers(Parents(entries), d);
    if q :| q in Parents(entries) && d <= CompsOf(q) {
      var p :| p in entries && Dir(p) == q;
    }
    if p :| p in entries && d <= CompsOf(Dir(p)) {
      assert Dir(p) in Parents(entries);
    }
  }
}
