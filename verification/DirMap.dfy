// browse.go, buildDirMap: the flat index filed by directory.
module DirMaps {
  import opened Utf8
  import opened Wrappers
  import opened Archive
  import opened Paths
  import opened MountView

  type DirMap = map<Path, Entries>

  // Where an entry is filed: under its directory, or, when that directory is
  // not indexed, under the root by its full path.
  function Slot(dirs: set<Path>, p: Path): (Path, Bytes) {
    if Dir(p) in dirs then (Dir(p), Base(p)) else (ROOT, p)
  }

  // The entry a slot belongs to.
  function Recover(slot: (Path, Bytes)): Path {
    if slot.1 != [] && slot.1[0] == SLASH then slot.1
    else if slot.0 == ROOT then ROOT + slot.1
    else slot.0 + [SLASH] + slot.1
  }

  // No slot is ambiguous, orphans under the root included.
  lemma SlotRecovers(dirs: set<Path>, p: Path)
    requires IsClean(p)
    ensures Recover(Slot(dirs, p)) == p
  {
  }

  lemma SlotsDoNotCollide(dirs: set<Path>, p: Path, q: Path)
    requires IsClean(p) && IsClean(q) && Slot(dirs, p) == Slot(dirs, q)
    ensures p == q
  {
    SlotRecovers(dirs, p);
    SlotRecovers(dirs, q);
  }

  function FilesIn(dm: DirMap, d: Path): Files { if d in dm then dm[d].files else map[] }
  function DirsIn(dm: DirMap, d: Path): Dirs { if d in dm then dm[d].dirs else map[] }
  function LinksIn(dm: DirMap, d: Path): Links { if d in dm then dm[d].links else map[] }

  // view holds every entry of m once, in its slot, and nothing else.
  ghost predicate Filed<V>(dirs: set<Path>, m: map<Path, V>, view: Path -> map<Bytes, V>) {
    && (forall p :: p in m ==>
        Slot(dirs, p).1 in view(Slot(dirs, p).0) && view(Slot(dirs, p).0)[Slot(dirs, p).1] == m[p])
    && (forall d, n :: n in view(d) ==> Recover((d, n)) in m && Slot(dirs, Recover((d, n))) == (d, n))
  }

  ghost predicate FiledAs(dm: DirMap, dirs: set<Path>, e: Entries) {
    && Filed(dirs, e.files, d => FilesIn(dm, d))
    && Filed(dirs, e.dirs, d => DirsIn(dm, d))
    && Filed(dirs, e.links, d => LinksIn(dm, d))
  }

  lemma FileMore<V>(dirs: set<Path>, m: map<Path, V>, view: Path -> map<Bytes, V>, p: Path, x: V,
                    view': Path -> map<Bytes, V>)
    requires Filed(dirs, m, view) && IsClean(p) && (forall q :: q in m ==> IsClean(q)) && p !in m
    requires var (d, n) := Slot(dirs, p);
      forall c :: view'(c) == if c == d then view(c)[n := x] else view(c)
    ensures Filed(dirs, m[p := x], view')
  {
    hide Slot, Recover, IsClean;
    SlotRecovers(dirs, p);
    forall q | q in m ensures Slot(dirs, q) != Slot(dirs, p) {
      if Slot(dirs, q) == Slot(dirs, p) {
        SlotsDoNotCollide(dirs, p, q);
      }
    }
  }

  // The entry of dm for a directory, made on first use.
  function Opened(dm: DirMap, d: Path): DirMap {
    if d in dm then dm else dm[d := NO_ENTRIES]
  }

  // In view, an entry whose directory is indexed is found there under its
  // base name, any other under the root by its full path, and nothing else is.
  ghost predicate FoundIn<V>(dirs: set<Path>, m: map<Path, V>, view: Path -> map<Bytes, V>) {
    && (forall p :: p in m && Dir(p) in dirs ==> Base(p) in view(Dir(p)) && view(Dir(p))[Base(p)] == m[p])
    && (forall p :: p in m && Dir(p) !in dirs ==> p in view(ROOT) && view(ROOT)[p] == m[p])
    && (forall d, n :: n in view(d) ==> InItsPlace(dirs, m, d, n))
  }

  ghost predicate InItsPlace<V>(dirs: set<Path>, m: map<Path, V>, d: Path, n: Bytes) {
    || (d == ROOT && n in m && Dir(n) !in dirs)
    || (d in dirs && exists p :: p in m && Dir(p) == d && Base(p) == n)
  }

  lemma FiledIsFound<V>(dirs: set<Path>, m: map<Path, V>, view: Path -> map<Bytes, V>)
    requires Filed(dirs, m, view)
    ensures FoundIn(dirs, m, view)
  {
    hide Dir, Base, Recover, Slot;
    forall p | p in m ensures Slot(dirs, p) == if Dir(p) in dirs then (Dir(p), Base(p)) else (ROOT, p) {
      SlotOf(dirs, p);
    }
    forall d, n | n in view(d) ensures InItsPlace(dirs, m, d, n) {
      assert Slot(dirs, Recover((d, n))) == (d, n);
    }
  }

  lemma SlotOf(dirs: set<Path>, p: Path)
    ensures Slot(dirs, p) == if Dir(p) in dirs then (Dir(p), Base(p)) else (ROOT, p)
  {
  }

  method BuildDirMap(e: Entries) returns (dm: DirMap)
    requires WellPathed(e)
    ensures FiledAs(dm, e.dirs.Keys, e)
    ensures FoundIn(e.dirs.Keys, e.files, d => FilesIn(dm, d))
    ensures FoundIn(e.dirs.Keys, e.dirs, d => DirsIn(dm, d))
    ensures FoundIn(e.dirs.Keys, e.links, d => LinksIn(dm, d))
  {
    hide Filed, IsClean, Slot, FoundIn;
    var dirs := e.dirs.Keys;
    dm := map[];
    NothingFiled(dm, dirs);
    var todo := e.files.Keys;
    assert e.files - todo == map[];
    while todo != {}
      invariant todo <= e.files.Keys
      invariant FiledAs(dm, dirs, Entries(e.files - todo, map[], map[]))
      decreases todo
    {
      ghost var some := ElementOf(todo);
      var fp :| fp in todo;
      var slot := Slot(dirs, fp);
      FileFiled(dm, dirs, Entries(e.files - todo, map[], map[]), fp, e.files[fp]);
      OneLess(e.files, todo, fp);
      dm := Opened(dm, slot.0);
      dm := dm[slot.0 := dm[slot.0].(files := dm[slot.0].files[slot.1 := e.files[fp]])];
      todo := todo - {fp};
    }
    assert e.files - todo == e.files;
    todo := e.dirs.Keys;
    assert e.dirs - todo == map[];
    while todo != {}
      invariant todo <= e.dirs.Keys
      invariant FiledAs(dm, dirs, Entries(e.files, e.dirs - todo, map[]))
      decreases todo
    {
      ghost var some := ElementOf(todo);
      var fp :| fp in todo;
      var slot := Slot(dirs, fp);
      DirFiled(dm, dirs, Entries(e.files, e.dirs - todo, map[]), fp, e.dirs[fp]);
      OneLess(e.dirs, todo, fp);
      dm := Opened(dm, slot.0);
      dm := dm[slot.0 := dm[slot.0].(dirs := dm[slot.0].dirs[slot.1 := e.dirs[fp]])];
      todo := todo - {fp};
    }
    assert e.dirs - todo == e.dirs;
    todo := e.links.Keys;
    assert e.links - todo == map[];
    while todo != {}
      invariant todo <= e.links.Keys
      invariant FiledAs(dm, dirs, Entries(e.files, e.dirs, e.links - todo))
      decreases todo
    {
      ghost var some := ElementOf(todo);
      var fp :| fp in todo;
      var slot := Slot(dirs, fp);
      LinkFiled(dm, dirs, Entries(e.files, e.dirs, e.links - todo), fp, e.links[fp]);
      OneLess(e.links, todo, fp);
      dm := Opened(dm, slot.0);
      dm := dm[slot.0 := dm[slot.0].(links := dm[slot.0].links[slot.1 := e.links[fp]])];
      todo := todo - {fp};
    }
    assert e.links - todo == e.links;
    FiledIsFound(dirs, e.files, d => FilesIn(dm, d));
    FiledIsFound(dirs, e.dirs, d => DirsIn(dm, d));
    FiledIsFound(dirs, e.links, d => LinksIn(dm, d));
  }

  lemma NothingFiled(dm: DirMap, dirs: set<Path>)
    requires dm == map[]
    ensures FiledAs(dm, dirs, NO_ENTRIES)
  {
  }

  lemma FileFiled(dm: DirMap, dirs: set<Path>, e: Entries, p: Path, fi: FileInfo)
    requires FiledAs(dm, dirs, e) && WellPathed(e) && IsClean(p) && p !in e.files
    ensures var (d, n) := Slot(dirs, p);
      var o := Opened(dm, d);
      FiledAs(o[d := o[d].(files := o[d].files[n := fi])], dirs, e.(files := e.files[p := fi]))
  {
    hide Filed, IsClean, Slot;
    var (d, n) := Slot(dirs, p);
    var o := Opened(dm, d);
    var dm' := o[d := o[d].(files := o[d].files[n := fi])];
    FileMore(dirs, e.files, c => FilesIn(dm, c), p, fi, c => FilesIn(dm', c));
    SameView(dirs, e.dirs, c => DirsIn(dm, c), c => DirsIn(dm', c));
    SameView(dirs, e.links, c => LinksIn(dm, c), c => LinksIn(dm', c));
  }

  lemma DirFiled(dm: DirMap, dirs: set<Path>, e: Entries, p: Path, info: DirInfo)
    requires FiledAs(dm, dirs, e) && WellPathed(e) && IsClean(p) && p !in e.dirs
    ensures var (d, n) := Slot(dirs, p);
      var o := Opened(dm, d);
      FiledAs(o[d := o[d].(dirs := o[d].dirs[n := info])], dirs, e.(dirs := e.dirs[p := info]))
  {
    hide Filed, IsClean, Slot;
    var (d, n) := Slot(dirs, p);
    var o := Opened(dm, d);
    var dm' := o[d := o[d].(dirs := o[d].dirs[n := info])];
    FileMore(dirs, e.dirs, c => DirsIn(dm, c), p, info, c => DirsIn(dm', c));
    SameView(dirs, e.files, c => FilesIn(dm, c), c => FilesIn(dm', c));
    SameView(dirs, e.links, c => LinksIn(dm, c), c => LinksIn(dm', c));
  }

  lemma LinkFiled(dm: DirMap, dirs: set<Path>, e: Entries, p: Path, li: LinkInfo)
    requires FiledAs(dm, dirs, e) && WellPathed(e) && IsClean(p) && p !in e.links
    ensures var (d, n) := Slot(dirs, p);
      var o := Opened(dm, d);
      FiledAs(o[d := o[d].(links := o[d].links[n := li])], dirs, e.(links := e.links[p := li]))
  {
    hide Filed, IsClean, Slot;
    var (d, n) := Slot(dirs, p);
    var o := Opened(dm, d);
    var dm' := o[d := o[d].(links := o[d].links[n := li])];
    FileMore(dirs, e.links, c => LinksIn(dm, c), p, li, c => LinksIn(dm', c));
    SameView(dirs, e.files, c => FilesIn(dm, c), c => FilesIn(dm', c));
    SameView(dirs, e.dirs, c => DirsIn(dm, c), c => DirsIn(dm', c));
  }

  lemma SameView<V>(dirs: set<Path>, m: map<Path, V>, view: Path -> map<Bytes, V>, view': Path -> map<Bytes, V>)
    requires Filed(dirs, m, view) && forall c :: view'(c) == view(c)
    ensures Filed(dirs, m, view')
  {
    hide Slot, Recover;
  }
}
