// link.go: the tree of an index rebuilt from downloaded chunks.
module Links {
  import opened Wrappers
  import opened Archive
  import opened IndexDoc
  import opened Paths
  import opened MountView
  import opened MountTree
  import opened Indexes
  import opened Targets
  import opened DirModes

  // The target after its directories are made.
  ghost function Prepared(tree: Tree, e: Entries): Tree {
    Mkdirs(tree, Lineages(e.dirs.Keys))
  }

  // Every entry has a free place in an indexed directory, and every file its
  // chunk.
  ghost predicate Linkable(tree: Tree, names: set<LocalName>, e: Entries)
    requires WellPathed(e)
  {
    && (forall d :: d in Lineages(e.dirs.Keys) && d in tree ==> tree[d].FsDir?)
    && (forall p :: p in e.links ==> LinkFits(tree, e, p))
    && (forall p :: p in e.files ==> FileFits(tree, names, e, p))
  }

  ghost predicate LinkFits(tree: Tree, e: Entries, p: Path)
    requires WellPathed(e) && p in e.links
  {
    DirAndBaseOfRoot();
    CanPlace(Prepared(tree, e), CompsOf(p))
  }

  ghost predicate FileFits(tree: Tree, names: set<LocalName>, e: Entries, p: Path)
    requires WellPathed(e) && p in e.files
  {
    DirAndBaseOfRoot();
    p !in e.links && CanPlace(Prepared(tree, e), CompsOf(p)) && LocalNameOf(KeyOf(e.files[p])) in names
  }

  // A symbolic link stands above p: one of the target, or one of the index
  // that finds its place there.
  ghost predicate BehindLink(tree: Tree, e: Entries, p: Path)
    requires WellPathed(e)
  {
    exists i | 0 <= i < |CompsOf(p)| ::
      var d := CompsOf(p)[..i];
      (d in tree && tree[d].FsLink?) || (PathOf(d) in e.links && LinkFits(tree, e, PathOf(d)))
  }

  // Some order of the loops meets an entry behind a symbolic link.
  ghost predicate CanEscape(tree: Tree, names: set<LocalName>, e: Entries)
    requires WellPathed(e)
  {
    || (exists d :: d in Lineages(e.dirs.Keys) && d in tree && tree[d].FsLink?)
    || ((forall d :: d in Lineages(e.dirs.Keys) && d in tree ==> tree[d].FsDir?) && EntryEscapes(tree, names, e))
  }

  ghost predicate EntryEscapes(tree: Tree, names: set<LocalName>, e: Entries)
    requires WellPathed(e)
  {
    || (exists p :: p in e.links && BehindLink(tree, e, p))
    || ((forall p :: p in e.links ==> LinkFits(tree, e, p))
      && exists p :: p in e.files && FileEscapes(tree, names, e, p))
  }

  ghost predicate FileEscapes(tree: Tree, names: set<LocalName>, e: Entries, p: Path)
    requires WellPathed(e) && p in e.files
  {
    LocalNameOf(KeyOf(e.files[p])) in names && BehindLink(tree, e, p)
  }

  // t is base with the given links and files of e put in, and nothing else.
  ghost predicate Placed(t: Tree, base: Tree, e: Entries, links: set<Path>, files: set<Path>) {
    && links <= e.links.Keys && files <= e.files.Keys
    && (forall c: Names :: c in t <==> c in base || PathOf(c) in links || PathOf(c) in files)
    && (forall c: Names :: c in base ==> c in t && t[c] == base[c])
    && (forall c: Names :: PathOf(c) in links ==> c in t && t[c] == FsLink(e.links[PathOf(c)].linkTo))
    && (forall c: Names :: PathOf(c) in files ==> c in t && t[c] == FsFile(LocalNameOf(KeyOf(e.files[PathOf(c)]))))
  }

  // Mode and time of p's file are those of some file with the same chunk.
  ghost predicate HasAttributes(chunks: map<LocalName, Inode>, e: Entries, p: Path, done: set<Path>) {
    p in e.files && done <= e.files.Keys && LocalNameOf(KeyOf(e.files[p])) in chunks &&
    var inode := chunks[LocalNameOf(KeyOf(e.files[p]))];
    exists q :: q in done && KeyOf(e.files[q]) == KeyOf(e.files[p])
      && inode.mode == e.files[q].mode && inode.modTime == e.files[q].modTime
  }

  lemma PlaceLink(t: Tree, base: Tree, e: Entries, links: set<Path>, p: Path)
    requires Placed(t, base, e, links, {}) && p in e.links && p !in links && IsClean(p) && p != ROOT
    ensures CompsOf(p) != []
    ensures CanPlace(t, CompsOf(p)) <==> CanPlace(base, CompsOf(p))
    ensures CanPlace(t, CompsOf(p)) ==> Placed(t[CompsOf(p) := FsLink(e.links[p].linkTo)], base, e, links + {p}, {})
  {
    hide LocalNameOf, KeyOf, PathOf, CompsOf;
    var d, n := TakeApart(p);
    var cs := d + [n];
    assert cs[..|cs| - 1] == d;
    forall c: Names | PathOf(c) == p ensures c == cs {
      PathOfInjective(c, cs);
    }
  }

  lemma PlaceFile(t: Tree, base: Tree, e: Entries, links: set<Path>, files: set<Path>, p: Path)
    requires Placed(t, base, e, links, files) && p in e.files && p !in files && IsClean(p) && p != ROOT
    ensures CompsOf(p) != []
    ensures CanPlace(t, CompsOf(p)) <==> CanPlace(base, CompsOf(p)) && p !in links
    ensures CanPlace(t, CompsOf(p)) ==>
      Placed(t[CompsOf(p) := FsFile(LocalNameOf(KeyOf(e.files[p])))], base, e, links, files + {p})
  {
    hide LocalNameOf, KeyOf, PathOf, CompsOf;
    var d, n := TakeApart(p);
    var cs := d + [n];
    assert cs[..|cs| - 1] == d;
    forall c: Names | PathOf(c) == p ensures c == cs {
      PathOfInjective(c, cs);
    }
  }

  // Whatever link stands above p by now was there or has found its place.
  lemma LinkAbove(t: Tree, tree0: Tree, e: Entries, links: set<Path>, files: set<Path>, p: Path)
    requires WellPathed(e) && Placed(t, Prepared(tree0, e), e, links, files)
    requires (forall q :: q in links ==> LinkFits(tree0, e, q)) && !Direct(t, CompsOf(p))
    ensures BehindLink(tree0, e, p)
  {
    hide LinkFits, IsClean, PathOf, CompsOf, Lineages;
  }

  lemma NothingMade(tree: Tree)
    ensures Mkdirs(tree, Lineages({})) == tree && Lineages({}) == {}
  {
  }

  // The modes of one more directory made, and of what is missing above it.
  lemma MoreModes(order: seq<Path>, done: set<Path>, dirs: Dirs, tree0: Tree, modes: map<Names, nat>, p: Path)
    requires IsOrder(order, done) && p in dirs && done <= dirs.Keys
    ensures forall q :: q in order + [p] ==> q in dirs
    ensures var t := Mkdirs(tree0, Lineages(done));
      modes + MadeModes(order + [p], dirs, tree0.Keys) ==
        modes + MadeModes(order, dirs, tree0.Keys) + NewModes(t, Mkdirs(t, Lineage(CompsOf(p))), dirs[p].mode)
  {
    hide Lineage, CompsOf, Lineages, IsOrder, Mkdirs, NewModes, MadeModes;
    MadeKeys(order, done, dirs, tree0.Keys);
    MadeNext(order, dirs, tree0.Keys, p);
    NewlyMade(tree0, Lineages(done), Lineage(CompsOf(p)), MadeModes(order, dirs, tree0.Keys), dirs[p].mode);
  }

  lemma NewlyMade(tree0: Tree, a: set<Names>, b: set<Names>, made: map<Names, nat>, mode: nat)
    requires made.Keys == a - tree0.Keys
    ensures var t := Mkdirs(tree0, a);
      NewModes(t, Mkdirs(t, b), mode) == map d | d in b && d !in tree0.Keys && d !in made :: mode
  {
    var t := Mkdirs(tree0, a);
    forall d ensures d in t <==> d in tree0.Keys || d in made.Keys {
    }
  }

  lemma MkdirsTwice(tree0: Tree, a: set<Names>, b: set<Names>)
    ensures Mkdirs(Mkdirs(tree0, a), b) == Mkdirs(tree0, a + b)
  {
  }

  lemma MkdirsDirect(tree0: Tree, a: set<Names>, cs: Names)
    ensures AllDirect(Mkdirs(tree0, a), cs) <==> forall d :: d in Lineage(cs) && d in tree0 ==> !tree0[d].FsLink?
  {
    assert cs[..|cs|] == cs;
  }

  lemma MkdirsCan(tree0: Tree, a: set<Names>, cs: Names)
    ensures CanMkdir(Mkdirs(tree0, a), cs) <==> forall d :: d in Lineage(cs) && d in tree0 ==> tree0[d].FsDir?
  {
  }

  // One more directory made.
  lemma DirMade(tree0: Tree, done: set<Path>, all: set<Path>, p: Path)
    requires done + {p} <= all
    ensures var t := Mkdirs(tree0, Lineages(done));
      && (AllDirect(t, CompsOf(p)) <==> forall d :: d in Lineage(CompsOf(p)) && d in tree0 ==> !tree0[d].FsLink?)
      && (CanMkdir(t, CompsOf(p)) <==> forall d :: d in Lineage(CompsOf(p)) && d in tree0 ==> tree0[d].FsDir?)
      && Mkdirs(t, Lineage(CompsOf(p))) == Mkdirs(tree0, Lineages(done + {p}))
    ensures Lineages(done + {p}) == Lineages(done) + Lineage(CompsOf(p)) <= Lineages(all)
  {
    hide Lineage, CompsOf, AllDirect, CanMkdir, Mkdirs;
    LineagesAdd(done, p);
    LineagesGrow(done + {p}, all);
    MkdirsTwice(tree0, Lineages(done), Lineage(CompsOf(p)));
    MkdirsDirect(tree0, Lineages(done), CompsOf(p));
    MkdirsCan(tree0, Lineages(done), CompsOf(p));
  }

  lemma LineagesGrow(a: set<Path>, b: set<Path>)
    requires a <= b
    ensures Lineages(a) <= Lineages(b)
  {
    hide Lineage, CompsOf;
  }

  // The loop over the directories, in the given order.
  method MakeDirs(target: Target, e: Entries) returns (r: Outcome, ghost order: seq<Path>)
    requires WellPathed(e)
    modifies target`tree, target`modes, target`faults
    ensures old(target.faults) <= target.faults && (target.faults == old(target.faults) ==> r != Faulty)
    ensures r.Done? ==> target.tree == Prepared(old(target.tree), e)
    ensures r.Done? ==> forall d :: d in Lineages(e.dirs.Keys) && d in old(target.tree) ==> old(target.tree)[d].FsDir?
    ensures r.Refused? ==> exists d ::
      d in Lineages(e.dirs.Keys) && d in old(target.tree) && !old(target.tree)[d].FsDir?
    ensures r.Escaped? ==> exists d ::
      d in Lineages(e.dirs.Keys) && d in old(target.tree) && old(target.tree)[d].FsLink?
    ensures r.Done? ==> IsOrder(order, e.dirs.Keys)
    ensures r.Done? ==> target.modes == old(target.modes) + MadeModes(order, e.dirs, old(target.tree).Keys)
  {
    hide Lineages, Lineage, CompsOf, IsClean, AllDirect, CanMkdir, Mkdirs, MadeModes, NewModes, IsOrder;
    ghost var tree0 := target.tree;
    var todo := e.dirs.Keys;
    order := [];
    NothingMade(tree0);
    NothingOrdered(e.dirs, tree0.Keys);
    assert e.dirs.Keys - todo == {};
    while todo != {}
      invariant todo <= e.dirs.Keys
      invariant target.tree == Mkdirs(tree0, Lineages(e.dirs.Keys - todo)) && target.faults == old(target.faults)
      invariant forall d :: d in Lineages(e.dirs.Keys - todo) && d in tree0 ==> tree0[d].FsDir?
      invariant IsOrder(order, e.dirs.Keys - todo) && forall q :: q in order ==> q in e.dirs
      invariant target.modes == old(target.modes) + MadeModes(order, e.dirs, tree0.Keys)
      decreases todo
    {
      ghost var some := ElementOf(todo);
      var p :| p in todo;
      DirMade(tree0, e.dirs.Keys - todo, e.dirs.Keys, p);
      assert e.dirs.Keys - (todo - {p}) == (e.dirs.Keys - todo) + {p};
      MoreModes(order, e.dirs.Keys - todo, e.dirs, tree0, old(target.modes), p);
      OneMorePath(order, e.dirs.Keys - todo, p);
      var cs := SplitMountPath(p);
      var made := target.MkdirAll(cs, e.dirs[p].mode);
      if !made.Done? {
        return made, order;
      }
      todo, order := todo - {p}, order + [p];
    }
    assert e.dirs.Keys - todo == e.dirs.Keys;
    return Done, order;
  }

  // The loop over the symbolic links.
  method MakeLinks(target: Target, e: Entries, ghost tree0: Tree) returns (r: Outcome)
    requires WellPathed(e) && target.tree == Prepared(tree0, e)
    modifies target`tree, target`faults
    ensures old(target.faults) <= target.faults && (target.faults == old(target.faults) ==> r != Faulty)
    ensures r.Done? ==> Placed(target.tree, Prepared(tree0, e), e, e.links.Keys, {})
    ensures r.Done? ==> forall p :: p in e.links ==> LinkFits(tree0, e, p)
    ensures r.Refused? ==> exists p :: p in e.links && !LinkFits(tree0, e, p)
    ensures r.Escaped? ==> exists p :: p in e.links && BehindLink(tree0, e, p)
  {
    hide CompsOf, IsClean, Direct, CanPlace, Prepared, Placed, BehindLink;
    var todo := e.links.Keys;
    NothingPlaced(target.tree, e);
    assert e.links.Keys - todo == {};
    while todo != {}
      invariant todo <= e.links.Keys && target.faults == old(target.faults)
      invariant Placed(target.tree, Prepared(tree0, e), e, e.links.Keys - todo, {})
      invariant forall p :: p in e.links.Keys - todo ==> LinkFits(tree0, e, p)
      decreases todo
    {
      ghost var some := ElementOf(todo);
      var p :| p in todo;
      PlaceLink(target.tree, Prepared(tree0, e), e, e.links.Keys - todo, p);
      assert e.links.Keys - (todo - {p}) == (e.links.Keys - todo) + {p};
      var cs := SplitMountPath(p);
      ghost var t := target.tree;
      var made := target.Symlink(e.links[p].linkTo, cs);
      if !made.Done? {
        assert made.Refused? ==> !LinkFits(tree0, e, p);
        if made.Escaped? {
          LinkAbove(t, tree0, e, e.links.Keys - todo, {}, p);
        }
        return made;
      }
      todo := todo - {p};
    }
    assert e.links.Keys - todo == e.links.Keys;
    return Done;
  }

  lemma NothingPlaced(base: Tree, e: Entries)
    ensures Placed(base, base, e, {}, {})
  {
  }

  // The attributes of one more file set, and those of files with the same
  // chunk along with them.
  lemma AttributesSet(chunks: map<LocalName, Inode>, e: Entries, done: set<Path>, q: Path)
    requires q in e.files && done <= e.files.Keys
    requires forall p :: p in done ==> HasAttributes(chunks, e, p, done)
    requires LocalNameOf(KeyOf(e.files[q])) in chunks
    ensures var n := LocalNameOf(KeyOf(e.files[q]));
      var chunks' := chunks[n := Inode(chunks[n].content, e.files[q].mode, e.files[q].modTime)];
      forall p :: p in done + {q} ==> HasAttributes(chunks', e, p, done + {q})
  {
    hide LocalNameOf;
    var n := LocalNameOf(KeyOf(e.files[q]));
    var chunks' := chunks[n := Inode(chunks[n].content, e.files[q].mode, e.files[q].modTime)];
    forall p | p in done + {q} ensures HasAttributes(chunks', e, p, done + {q}) {
      if LocalNameOf(KeyOf(e.files[p])) == n {
        LocalNameInjective(KeyOf(e.files[p]), KeyOf(e.files[q]));
      }
    }
  }

  // The loop over the files.
  method MakeFiles(target: Target, e: Entries, ghost tree0: Tree) returns (r: Outcome)
    requires WellPathed(e) && forall p :: p in e.links ==> LinkFits(tree0, e, p)
    requires Placed(target.tree, Prepared(tree0, e), e, e.links.Keys, {})
    modifies target`tree, target`chunks, target`faults
    ensures old(target.faults) <= target.faults && (target.faults == old(target.faults) ==> r != Faulty)
    ensures SameContents(old(target.chunks), target.chunks)
    ensures r.Done? ==> Placed(target.tree, Prepared(tree0, e), e, e.links.Keys, e.files.Keys)
    ensures r.Done? ==> forall p :: p in e.files ==> FileFits(tree0, old(target.chunks).Keys, e, p)
    ensures r.Done? ==> forall p :: p in e.files ==> HasAttributes(target.chunks, e, p, e.files.Keys)
    ensures r.Refused? ==> exists p :: p in e.files && !FileFits(tree0, old(target.chunks).Keys, e, p)
    ensures r.Escaped? ==> exists p :: p in e.files && FileEscapes(tree0, old(target.chunks).Keys, e, p)
  {
    hide CompsOf, IsClean, Direct, CanPlace, Prepared, Placed, BehindLink, LinkFits, HasAttributes, LocalNameOf, KeyOf;
    ghost var chunks0 := target.chunks;
    var todo := e.files.Keys;
    assert e.files.Keys - todo == {};
    while todo != {}
      invariant todo <= e.files.Keys && SameContents(chunks0, target.chunks) && target.faults == old(target.faults)
      invariant Placed(target.tree, Prepared(tree0, e), e, e.links.Keys, e.files.Keys - todo)
      invariant forall p :: p in e.files.Keys - todo ==> FileFits(tree0, chunks0.Keys, e, p)
      invariant forall p :: p in e.files.Keys - todo ==> HasAttributes(target.chunks, e, p, e.files.Keys - todo)
      decreases todo
    {
      ghost var some := ElementOf(todo);
      var p :| p in todo;
      PlaceFile(target.tree, Prepared(tree0, e), e, e.links.Keys, e.files.Keys - todo, p);
      assert e.files.Keys - (todo - {p}) == (e.files.Keys - todo) + {p};
      var name := LocalNameOf(KeyOf(e.files[p]));
      var cs := SplitMountPath(p);
      ghost var t := target.tree;
      var made := target.Link(name, cs);
      if !made.Done? {
        assert made.Refused? ==> !FileFits(tree0, chunks0.Keys, e, p);
        if made.Escaped? {
          LinkAbove(t, tree0, e, e.links.Keys, e.files.Keys - todo, p);
          assert FileEscapes(tree0, chunks0.Keys, e, p);
        }
        return made;
      }
      AttributesSet(target.chunks, e, e.files.Keys - todo, p);
      made := target.SetAttributes(name, e.files[p].mode, e.files[p].modTime);
      if !made.Done? {
        return made;
      }
      todo := todo - {p};
    }
    assert e.files.Keys - todo == e.files.Keys;
    return Done;
  }

  // An index that is there and can be parsed.
  ghost predicate Loadable(index: Option<Doc>) {
    index.Some? && ReadableFiles(index.value.files) && ReadableMarks(index.value.deleted)
  }

  // linkFiles. v is the index that was read from the target, order that of
  // its directories.
  method LinkFiles(target: Target) returns (r: Outcome, ghost v: IndexVal, ghost order: seq<Path>)
    requires forall d, w :: target.index == Some(d) && Loads(d, w) ==> WellPathed(w.entries)
    modifies target`tree, target`modes, target`chunks, target`faults
    ensures SameContents(old(target.chunks), target.chunks)
    ensures r != Faulty ==> target.index.Some? && Loads(target.index.value, v) && WellPathed(v.entries)
    ensures r == Done ==> Linkable(old(target.tree), old(target.chunks).Keys, v.entries)
    ensures r == Refused ==> !Linkable(old(target.tree), old(target.chunks).Keys, v.entries)
    ensures r == Escaped ==> CanEscape(old(target.tree), old(target.chunks).Keys, v.entries)
    ensures r == Done ==>
      Placed(target.tree, Prepared(old(target.tree), v.entries), v.entries, v.entries.links.Keys, v.entries.files.Keys)
    ensures r == Done ==>
      forall p :: p in v.entries.files ==> HasAttributes(target.chunks, v.entries, p, v.entries.files.Keys)
    ensures r == Done ==> IsOrder(order, v.entries.dirs.Keys)
    ensures r == Done ==>
      target.modes == old(target.modes) + MadeModes(order, v.entries.dirs, old(target.tree).Keys)
    // where no operation fails, an index that can be loaded gets a verdict
    ensures old(target.faults) <= target.faults
    ensures target.faults == old(target.faults) ==> (r != Faulty <==> Loadable(target.index))
  {
    hide Loads, WellPathed, BehindLink, FileEscapes, MadeModes, Prepared, Placed, HasAttributes, LinkFits, FileFits,
      Lineages, ReadableFiles,
      ReadableMarks;
    v, order := EMPTY_INDEX, [];
    var doc := target.ReadIndex();
    if doc.Err? {
      return Faulty, v, order;
    }
    var ri := new Index();
    var ok := ri.Load(doc.value);
    if !ok {
      return Faulty, v, order;
    }
    v := ri.Value();
    ghost var tree0 := target.tree;
    r, order := MakeDirs(target, ri.entries);
    if !r.Done? {
      return;
    }
    r := MakeLinks(target, ri.entries, tree0);
    if !r.Done? {
      return;
    }
    r := MakeFiles(target, ri.entries, tree0);
  }
}
