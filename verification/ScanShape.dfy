// When what a scan records can be laid out again: the geometry of a walk, and
// an exact condition on the configured paths.
module ScanShapes {
  import opened Utf8
  import opened ChunkKeys
  import opened Archive
  import opened Paths
  import opened MountView
  import Scanner
  import Walks
  import opened Restores

  type Visit = (Path, Walks.Node)

  // ---- paths of a walk ----

  // What a directory can hold.
  predicate Named(n: Walks.Node) {
    n.DirNode? ==> forall i :: 0 <= i < |n.children| ==> IsName(n.children[i].name) && Named(n.children[i])
  }

  // A directory that is met and entered at d.
  ghost predicate HasDir(visits: seq<Visit>, d: Names, skip: set<Bytes>) {
    exists v | v in visits :: v.0 == PathOf(d) && v.1.DirNode? && v.1.name !in skip
  }

  ghost predicate DirsAbove(visits: seq<Visit>, cs: Names, rel: Names, skip: set<Bytes>) {
    forall i :: 0 <= i < |rel| ==> HasDir(visits, cs + rel[..i], skip)
  }

  lemma JoinIsPath(cs: Names, n: Name)
    ensures Walks.JoinName(PathOf(cs), n) == PathOf(cs + [n])
  {
    RenderLast(cs, n);
    RenderEmptyIff(cs);
    RenderEmptyIff([]);
    if cs != [] {
      SplitRender(cs);
      assert Split([], SLASH) == [[]];
    }
  }

  // Every visit lies at or below the root of its walk, with entered
  // directories all the way up.
  lemma {:induction false} WalkIsBelow(n: Walks.Node, cs: Names, skip: set<Bytes>, v: Visit) returns (rel: Names)
    requires Named(n) && v in Walks.Walk(n, PathOf(cs), skip)
    ensures v.0 == PathOf(cs + rel) && DirsAbove(Walks.Walk(n, PathOf(cs), skip), cs, rel, skip)
    ensures rel == [] ==> v.1 == n
    ensures rel != [] ==> n.DirNode? && n.name !in skip
    ensures (PathOf(cs), n) in Walks.Walk(n, PathOf(cs), skip)
    decreases n
  {
    hide PathOf, HasDir, Walks.JoinName;
    var visits := Walks.Walk(n, PathOf(cs), skip);
    if v == (PathOf(cs), n) {
      rel := [];
      assert cs + rel == cs;
    } else {
      var i := Walks.InOneChild(n, n.children, PathOf(cs), skip, v);
      var name: Name := n.children[i].name;
      JoinIsPath(cs, name);
      var below := WalkIsBelow(n.children[i], cs + [name], skip, v);
      rel := [name] + below;
      assert cs + rel == cs + [name] + below;
      AboveChild(visits, Walks.Walk(n.children[i], PathOf(cs + [name]), skip), n, cs, name, below, skip);
    }
  }

  lemma AboveChild(visits: seq<Visit>, inner: seq<Visit>, n: Walks.Node, cs: Names, name: Name, below: Names,
                   skip: set<Bytes>)
    requires DirsAbove(inner, cs + [name], below, skip) && forall w :: w in inner ==> w in visits
    requires (PathOf(cs), n) in visits && n.DirNode? && n.name !in skip
    ensures DirsAbove(visits, cs, [name] + below, skip)
  {
    hide PathOf;
    var rel := [name] + below;
    forall i | 0 <= i < |rel| ensures HasDir(visits, cs + rel[..i], skip) {
      if i == 0 {
        assert cs + rel[..0] == cs;
        assert (PathOf(cs), n).0 == PathOf(cs);
      } else {
        assert cs + rel[..i] == cs + [name] + below[..i - 1];
        assert HasDir(inner, cs + [name] + below[..i - 1], skip);
      }
    }
  }

  // ---- the condition ----

  // The configured paths are clean, and every directory met can be stat'ed.
  ghost predicate WalkSound(roots: seq<Visit>, skip: set<Bytes>) {
    && (forall j :: 0 <= j < |roots| ==> IsClean(roots[j].0) && Named(roots[j].1))
    && (forall v :: v in Walks.Visits(roots, skip) && v.1.DirNode? ==> !v.1.broken)
  }

  // v is recorded as a file or link.
  predicate IsEntry(v: Visit, skip: set<Bytes>) {
    Scanner.Taken(v.1, skip) && !v.1.DirNode?
  }

  // The directory of p is recorded, or lies above one that is.
  ghost predicate HasParent(visits: seq<Visit>, p: Path, skip: set<Bytes>) {
    exists w | w in visits :: w.1.DirNode? && Scanner.Taken(w.1, skip) && CompsOf(Dir(p)) <= CompsOf(w.0)
  }

  // A configured file or link has its directory in the backup, and no file or
  // link stands strictly above a configured path that is recorded.
  ghost predicate RootsFit(roots: seq<Visit>, skip: set<Bytes>) {
    && (forall j :: 0 <= j < |roots| && IsEntry(roots[j], skip) ==>
        HasParent(Walks.Visits(roots, skip), roots[j].0, skip))
    && (forall v, j | v in Walks.Visits(roots, skip) && IsEntry(v, skip) && 0 <= j < |roots| ::
        Scanner.Taken(roots[j].1, skip) ==> !(CompsOf(v.0) < CompsOf(roots[j].0)))
  }

  // v lies at cs + rel, where cs is the configured path its walk began at.
  lemma Located(roots: seq<Visit>, skip: set<Bytes>, v: Visit) returns (j: nat, cs: Names, rel: Names)
    requires WalkSound(roots, skip) && v in Walks.Visits(roots, skip)
    ensures j < |roots| && cs == CompsOf(roots[j].0) && roots[j] in Walks.Visits(roots, skip)
    ensures IsClean(v.0) && CompsOf(v.0) == cs + rel
    ensures DirsAbove(Walks.Visits(roots, skip), cs, rel, skip)
    ensures if rel == [] then v == roots[j] else Scanner.Taken(roots[j].1, skip)
  {
    hide Walks.Walk, Walks.Visits, PathOf, Named;
    j := Walks.InOneRoot(roots, skip, v);
    cs := CompsOf(roots[j].0);
    rel := WalkIsBelow(roots[j].1, cs, skip, v);
    CompsOfPath(cs + rel);
    assert rel == [] ==> cs + rel == cs;
    var inner := Walks.Walk(roots[j].1, roots[j].0, skip);
    assert roots[j] == (PathOf(cs), roots[j].1);
    forall i | 0 <= i < |rel| ensures HasDir(Walks.Visits(roots, skip), cs + rel[..i], skip) {
      assert HasDir(inner, cs + rel[..i], skip);
    }
  }

  // v recorded p, as what it is.
  lemma RecordedBy(visits: seq<Visit>, skip: set<Bytes>, scanned: Entries, p: Path) returns (v: Visit)
    requires Scanner.ScanOf(visits, skip, scanned)
    requires p in scanned.dirs.Keys + scanned.links.Keys + scanned.files.Keys
    ensures v in visits && v.0 == p && Scanner.Taken(v.1, skip)
    ensures Scanner.Consistent(visits) ==> (v.1.DirNode? <==> p in scanned.dirs)
    ensures Scanner.Consistent(visits) ==> (v.1.LinkNode? <==> p in scanned.links)
    ensures Scanner.Consistent(visits) ==> (v.1.FileNode? <==> p in scanned.files)
  {
    if p in scanned.dirs {
      v :| v in visits && Scanner.Records(v, p, skip) && Scanner.IsDir(v.1);
    } else if p in scanned.links {
      v :| v in visits && Scanner.Records(v, p, skip) && Scanner.IsLink(v.1);
    } else {
      v :| v in visits && Scanner.Records(v, p, skip) && Scanner.IsFile(v.1);
    }
  }

  lemma TakenIsRecorded(visits: seq<Visit>, skip: set<Bytes>, scanned: Entries, v: Visit)
    requires Scanner.ScanOf(visits, skip, scanned) && v in visits && Scanner.Taken(v.1, skip)
    ensures if v.1.DirNode? then v.0 in scanned.dirs else v.0 in scanned.links.Keys + scanned.files.Keys
  {
    assert Scanner.Records(v, v.0, skip) && Scanner.Entered(scanned, v);
  }

  // ---- it suffices ----

  // Nothing but directories is met above anything that is recorded.
  lemma OnlyDirsAbove(roots: seq<Visit>, skip: set<Bytes>, v: Visit, w: Visit)
    requires WalkSound(roots, skip) && RootsFit(roots, skip) && Scanner.Consistent(Walks.Visits(roots, skip))
    requires v in Walks.Visits(roots, skip) && Scanner.Taken(v.1, skip)
    requires w in Walks.Visits(roots, skip) && IsEntry(w, skip) && CompsOf(w.0) <= CompsOf(v.0)
    ensures w == v
  {
    hide Walks.Walk, Walks.Visits, PathOf, CompsOf, Named, IsClean, HasParent;
    var j, cs, rel := Located(roots, skip, v);
    var _, _, _ := Located(roots, skip, w);
    var c := CompsOf(w.0);
    assert !(c < cs);
    var i := |c| - |cs|;
    assert c == cs + rel[..i];
    assert i < |rel| ==> HasDir(Walks.Visits(roots, skip), c, skip);
    assert c == CompsOf(v.0);
  }

  // The directory of a file or link is made.
  lemma ParentMade(roots: seq<Visit>, skip: set<Bytes>, scanned: Entries, v: Visit)
    requires WalkSound(roots, skip) && RootsFit(roots, skip)
      && Scanner.ScanOf(Walks.Visits(roots, skip), skip, scanned)
    requires v in Walks.Visits(roots, skip) && IsEntry(v, skip)
    ensures CompsOf(Dir(v.0)) in Lineages(scanned.dirs.Keys)
  {
    hide Walks.Walk, Walks.Visits, PathOf, CompsOf, Named, IsClean, Dir, Scanner.ScanOf, Lineages, Lineage;
    var visits := Walks.Visits(roots, skip);
    var j, cs, rel := Located(roots, skip, v);
    LineagesMembers(scanned.dirs.Keys, CompsOf(Dir(v.0)));
    var w: Visit;
    if rel == [] {
      w :| w in visits && w.1.DirNode? && Scanner.Taken(w.1, skip) && CompsOf(Dir(v.0)) <= CompsOf(w.0);
    } else {
      var last := |rel| - 1;
      var d := cs + rel[..last];
      assert cs + rel == d + [rel[last]];
      DirAndBase(d, rel[last]);
      CompsOfPath(d);
      assert HasDir(visits, d, skip);
      w :| w in visits && w.0 == PathOf(d) && w.1.DirNode? && w.1.name !in skip;
    }
    TakenIsRecorded(visits, skip, scanned, w);
  }

  lemma FitIsShaped(roots: seq<Visit>, skip: set<Bytes>, scanned: Entries)
    requires WalkSound(roots, skip) && RootsFit(roots, skip) && Scanner.Consistent(Walks.Visits(roots, skip))
    requires Scanner.ScanOf(Walks.Visits(roots, skip), skip, scanned)
    ensures Shaped(scanned)
  {
    hide WalkSound, RootsFit, Scanner.ScanOf, Scanner.Consistent, Walks.Visits, PathOf, CompsOf, IsClean, Dir,
      Lineage, Lineages;
    var visits := Walks.Visits(roots, skip);
    forall p | p in scanned.files.Keys + scanned.links.Keys
      ensures CompsOf(Dir(p)) in Lineages(scanned.dirs.Keys) && CompsOf(p) !in Lineages(scanned.dirs.Keys)
    {
      var w := RecordedBy(visits, skip, scanned, p);
      ParentMade(roots, skip, scanned, w);
      LineagesMembers(scanned.dirs.Keys, CompsOf(p));
      forall q | q in scanned.dirs ensures !(CompsOf(p) <= CompsOf(q)) {
        var v := RecordedBy(visits, skip, scanned, q);
        if CompsOf(p) <= CompsOf(q) {
          OnlyDirsAbove(roots, skip, v, w);
        }
      }
    }
    forall p | p in scanned.files ensures p !in scanned.links {
      var v := RecordedBy(visits, skip, scanned, p);
    }
  }

  // ---- and it is necessary ----

  lemma ShapedHasParents(roots: seq<Visit>, skip: set<Bytes>, scanned: Entries, v: Visit)
    requires Scanner.Consistent(Walks.Visits(roots, skip))
      && Scanner.ScanOf(Walks.Visits(roots, skip), skip, scanned)
    requires Shaped(scanned) && v in Walks.Visits(roots, skip) && IsEntry(v, skip)
    ensures HasParent(Walks.Visits(roots, skip), v.0, skip)
  {
    hide Scanner.ScanOf, Scanner.Consistent, Walks.Visits, PathOf, CompsOf, Dir, Lineages;
    var visits := Walks.Visits(roots, skip);
    TakenIsRecorded(visits, skip, scanned, v);
    LineagesMembers(scanned.dirs.Keys, CompsOf(Dir(v.0)));
    var q :| q in scanned.dirs && CompsOf(Dir(v.0)) <= CompsOf(q);
    var w := RecordedBy(visits, skip, scanned, q);
  }

  lemma ShapedHasNothingAbove(visits: seq<Visit>, skip: set<Bytes>, scanned: Entries, v: Visit, r: Visit)
    requires Scanner.ScanOf(visits, skip, scanned) && Shaped(scanned)
    requires v in visits && IsEntry(v, skip) && r in visits && Scanner.Taken(r.1, skip) && IsClean(r.0)
    ensures !(CompsOf(v.0) < CompsOf(r.0))
  {
    hide Scanner.ScanOf, PathOf, CompsOf, Dir, Lineages, IsClean;
    TakenIsRecorded(visits, skip, scanned, v);
    TakenIsRecorded(visits, skip, scanned, r);
    var c := CompsOf(v.0);
    if c < CompsOf(r.0) {
      CompsOfPath([]);
      DirAndBaseOfRoot();
      var d, n := TakeApart(r.0);
      assert c <= d;
      LineagesMembers(scanned.dirs.Keys, c);
      if !r.1.DirNode? {
        LineagesClosed(scanned.dirs.Keys, c, d);
      }
    }
  }

  // A scan can be laid out again exactly if the configured paths fit.
  lemma ShapedIffFit(roots: seq<Visit>, skip: set<Bytes>, scanned: Entries)
    requires WalkSound(roots, skip) && Scanner.Consistent(Walks.Visits(roots, skip))
    requires Scanner.ScanOf(Walks.Visits(roots, skip), skip, scanned)
    ensures Shaped(scanned) <==> RootsFit(roots, skip)
  {
    hide Scanner.ScanOf, Scanner.Consistent, Walks.Visits, Walks.Walk, PathOf, CompsOf, Dir, IsClean, Named,
      HasParent, Shaped;
    var visits := Walks.Visits(roots, skip);
    forall j | 0 <= j < |roots| && Scanner.Taken(roots[j].1, skip) ensures roots[j] in visits {
      RootIsVisited(roots, skip, j);
    }
    if RootsFit(roots, skip) {
      FitIsShaped(roots, skip, scanned);
    }
    if Shaped(scanned) {
      forall j | 0 <= j < |roots| && IsEntry(roots[j], skip) ensures HasParent(visits, roots[j].0, skip) {
        ShapedHasParents(roots, skip, scanned, roots[j]);
      }
      forall v, j | v in visits && IsEntry(v, skip) && 0 <= j < |roots| && Scanner.Taken(roots[j].1, skip)
        ensures !(CompsOf(v.0) < CompsOf(roots[j].0))
      {
        ShapedHasNothingAbove(visits, skip, scanned, v, roots[j]);
      }
    }
  }

  lemma {:induction false} RootIsVisited(roots: seq<Visit>, skip: set<Bytes>, j: nat)
    requires j < |roots| && Scanner.Taken(roots[j].1, skip)
    ensures roots[j] in Walks.Visits(roots, skip)
  {
    if j > 0 {
      RootIsVisited(roots[1..], skip, j - 1);
    }
  }

  // A configured file on its own never fits.
  lemma LoneFileDoesNotFit(p: Path, n: Walks.Node, skip: set<Bytes>, scanned: Entries)
    requires IsClean(p) && n.FileNode? && !n.broken
    requires Scanner.ScanOf(Walks.Visits([(p, n)], skip), skip, scanned)
    ensures p in scanned.files && !Shaped(scanned)
  {
    hide CompsOf, Dir, IsClean, Lineages;
    var visits := Walks.Visits([(p, n)], skip);
    assert visits == [(p, n)];
    TakenIsRecorded(visits, skip, scanned, (p, n));
    forall q ensures q !in scanned.dirs {
      assert q in scanned.dirs ==> Scanner.Recorded(visits, q, skip, Scanner.IsDir);
    }
    LineagesMembers(scanned.dirs.Keys, CompsOf(Dir(p)));
    assert p in scanned.files.Keys + scanned.links.Keys;
  }

  // ---- what shaped entries are good for ----

  ghost predicate CleanPaths(e: Entries) {
    forall p :: p in e.dirs.Keys + e.files.Keys + e.links.Keys ==> IsClean(p)
  }

  ghost predicate Restorable(e: Entries) {
    WellPathed(e) && Shaped(e)
  }

  lemma ShapedIsRestorable(e: Entries)
    requires CleanPaths(e) && Shaped(e)
    ensures Restorable(e)
  {
    hide CompsOf, PathOf, IsClean, Dir, Lineages;
    DirAndBaseOfRoot();
  }

  lemma ScanIsClean(roots: seq<Visit>, skip: set<Bytes>, scanned: Entries)
    requires WalkSound(roots, skip) && Scanner.ScanOf(Walks.Visits(roots, skip), skip, scanned)
    ensures CleanPaths(scanned)
  {
    hide WalkSound, Scanner.ScanOf, Walks.Visits, IsClean;
    forall p | p in scanned.dirs.Keys + scanned.files.Keys + scanned.links.Keys ensures IsClean(p) {
      var v := RecordedBy(Walks.Visits(roots, skip), skip, scanned, p);
      var _, _, _ := Located(roots, skip, v);
    }
  }

  // Files that go, because they cannot be read or their chunk is lost, leave
  // the rest as restorable as it was.
  lemma FewerFilesAreRestorable(e: Entries, files: Files)
    requires Restorable(e) && files.Keys <= e.files.Keys
    ensures Restorable(e.(files := files))
  {
    hide CompsOf, PathOf, IsClean, Dir, Lineages;
  }
}
