// link.go:26-48: when linking an index into an empty target can leave it,
// because a path is resolved through a symbolic link just restored.
module Escapes {
  import opened Wrappers
  import opened Archive
  import opened Paths
  import opened MountView
  import opened DirModes
  import opened Targets
  import opened Links

  // The loop over links or files, in the given order, up to the first path
  // that is refused or lies behind a link.
  ghost function Place(t: Tree, nodes: map<Path, FsNode>, order: seq<Path>): (Outcome, Tree)
    decreases |order|
  {
    if order == [] then (Done, t)
    else
      var p, cs := order[0], CompsOf(order[0]);
      if p !in nodes || cs == [] then (Refused, t)
      else if !Direct(t, cs) then (Escaped, t)
      else if !CanPlace(t, cs) then (Refused, t)
      else Place(t[cs := nodes[p]], nodes, order[1..])
  }

  ghost function LinkNodes(e: Entries): map<Path, FsNode> {
    map p | p in e.links :: FsLink(e.links[p].linkTo)
  }

  // A file without its chunk is refused wherever it is to go.
  ghost function FileNodes(e: Entries, names: set<LocalName>): map<Path, FsNode> {
    map p | p in e.files && LocalNameOf(KeyOf(e.files[p])) in names :: FsFile(LocalNameOf(KeyOf(e.files[p])))
  }

  // How linking into an empty target ends, if no operation fails.
  ghost function Linking(e: Entries, names: set<LocalName>, links: seq<Path>, files: seq<Path>): Outcome {
    var linked := Place(Prepared(map[], e), LinkNodes(e), links);
    if linked.0 != Done then linked.0 else Place(linked.1, FileNodes(e, names), files).0
  }

  ghost predicate EscapesInOrder(e: Entries, names: set<LocalName>, links: seq<Path>, files: seq<Path>) {
    IsOrder(links, e.links.Keys) && IsOrder(files, e.files.Keys) && Linking(e, names, links, files) == Escaped
  }

  ghost predicate Distinct(order: seq<Path>) {
    forall i, j :: 0 <= i < j < |order| ==> order[i] != order[j]
  }

  // What the outcome of the links says about the index.
  lemma {:induction false} LinksPlaced(t: Tree, e: Entries, done: set<Path>, order: seq<Path>)
    requires WellPathed(e) && Placed(t, Prepared(map[], e), e, done, {}) && Distinct(order)
    requires forall p :: p in order ==> p in e.links && p !in done
    requires forall p :: p in done ==> LinkFits(map[], e, p)
    ensures var (r, t') := Place(t, LinkNodes(e), order);
      && r != Faulty
      && (r == Done ==> Placed(t', Prepared(map[], e), e, done + (set p | p in order), {}))
      && (r == Done ==> forall p :: p in order ==> LinkFits(map[], e, p))
      && (r == Refused ==> exists p :: p in e.links && !LinkFits(map[], e, p))
      && (r == Escaped ==> exists p :: p in e.links && BehindLink(map[], e, p))
    decreases |order|
  {
    hide CompsOf, PathOf, IsClean, Direct, CanPlace, Prepared, Placed, BehindLink;
    if order == [] {
      assert done + (set p | p in order) == done;
    } else {
      var p, rest := order[0], order[1..];
      var cs := CompsOf(p);
      PlaceLink(t, Prepared(map[], e), e, done, p);
      if !Direct(t, cs) {
        LinkAbove(t, map[], e, done, {}, p);
      } else if CanPlace(t, cs) {
        assert forall q :: q in rest ==> q in order;
        assert done + (set q | q in order) == done + {p} + (set q | q in rest);
        LinksPlaced(t[cs := LinkNodes(e)[p]], e, done + {p}, rest);
      } else {
        assert !LinkFits(map[], e, p);
      }
    }
  }

  // And of the files, once every link is placed.
  lemma {:induction false} FilesEscape(t: Tree, e: Entries, names: set<LocalName>, done: set<Path>, order: seq<Path>)
    requires WellPathed(e) && Placed(t, Prepared(map[], e), e, e.links.Keys, done) && Distinct(order)
    requires forall p :: p in order ==> p in e.files && p !in done
    requires forall p :: p in e.links ==> LinkFits(map[], e, p)
    requires Place(t, FileNodes(e, names), order).0 == Escaped
    ensures exists p :: p in e.files && FileEscapes(map[], names, e, p)
    decreases |order|
  {
    hide CompsOf, PathOf, IsClean, Direct, CanPlace, Prepared, Placed, BehindLink, LocalNameOf, KeyOf, LinkFits;
    var p, rest := order[0], order[1..];
    var cs := CompsOf(p);
    PlaceFile(t, Prepared(map[], e), e, e.links.Keys, done, p);
    if !Direct(t, cs) {
      LinkAbove(t, map[], e, e.links.Keys, done, p);
      assert FileEscapes(map[], names, e, p);
    } else {
      assert forall q :: q in rest ==> q in order;
      FilesEscape(t[cs := FileNodes(e, names)[p]], e, names, done + {p}, rest);
    }
  }

  // A link that goes first, and one behind it that goes second.
  lemma LinkEscapes(e: Entries, p: Path) returns (links: seq<Path>)
    requires WellPathed(e) && p in e.links && BehindLink(map[], e, p)
    ensures IsOrder(links, e.links.Keys) && Place(Prepared(map[], e), LinkNodes(e), links).0 == Escaped
  {
    hide CompsOf, PathOf, IsClean, Lineages, LinkFits;
    var i :| 0 <= i < |CompsOf(p)| && PathOf(CompsOf(p)[..i]) in e.links && LinkFits(map[], e, PathOf(CompsOf(p)[..i]));
    var d := CompsOf(p)[..i];
    var q := PathOf(d);
    CompsOfPath(d);
    var rest := OrderStarting(e.links.Keys - {q}, p);
    links := [q] + rest;
    FittingIsPlaced(e, q);
    var t := Prepared(map[], e)[d := LinkNodes(e)[q]];
    assert !Direct(t, CompsOf(p));
    assert links[1..] == rest;
    assert Place(t, LinkNodes(e), rest).0 == Escaped;
  }

  lemma FittingIsPlaced(e: Entries, q: Path)
    requires WellPathed(e) && q in e.links && LinkFits(map[], e, q)
    ensures CompsOf(q) != [] && CanPlace(Prepared(map[], e), CompsOf(q)) && Direct(Prepared(map[], e), CompsOf(q))
  {
    hide CompsOf, PathOf, IsClean, Lineages;
    DirAndBaseOfRoot();
  }

  // A file behind a link, once all links are placed.
  lemma FileBehindEscapes(t: Tree, e: Entries, names: set<LocalName>, p: Path) returns (files: seq<Path>)
    requires WellPathed(e) && Placed(t, Prepared(map[], e), e, e.links.Keys, {})
    requires p in e.files && FileEscapes(map[], names, e, p)
    ensures IsOrder(files, e.files.Keys) && Place(t, FileNodes(e, names), files).0 == Escaped
  {
    hide CompsOf, PathOf, IsClean, Lineages, LinkFits, LocalNameOf, KeyOf;
    var i :| 0 <= i < |CompsOf(p)| && PathOf(CompsOf(p)[..i]) in e.links;
    assert t[CompsOf(p)[..i]].FsLink?;
    assert !Direct(t, CompsOf(p));
    files := OrderStarting(e.files.Keys, p);
  }

  lemma {:induction false} AnyOrder(all: set<Path>) returns (order: seq<Path>)
    ensures IsOrder(order, all)
  {
    if all == {} {
      order := [];
    } else {
      var first := ElementOf(all);
      order := OrderStarting(all, first);
    }
  }

  // Linking into an empty target can leave it in some order exactly if some
  // link, or some file where all links fit, stands behind a link that fits.
  lemma EscapeIff(e: Entries, names: set<LocalName>)
    requires WellPathed(e)
    ensures (exists links, files :: EscapesInOrder(e, names, links, files)) <==> CanEscape(map[], names, e)
  {
    hide Place, LinkFits, BehindLink, IsOrder, FileEscapes, Prepared, Placed, LinkNodes, FileNodes;
    forall links, files | EscapesInOrder(e, names, links, files) ensures EntryEscapes(map[], names, e) {
      EscapeMeans(e, names, links, files);
    }
    if EntryEscapes(map[], names, e) {
      var links, files := EscapeHappens(e, names);
    }
  }

  lemma EscapeMeans(e: Entries, names: set<LocalName>, links: seq<Path>, files: seq<Path>)
    requires WellPathed(e) && EscapesInOrder(e, names, links, files)
    ensures EntryEscapes(map[], names, e)
  {
    hide Place, LinkFits, BehindLink, FileEscapes, Prepared, Placed;
    NothingPlaced(Prepared(map[], e), e);
    LinksPlaced(Prepared(map[], e), e, {}, links);
    var linked := Place(Prepared(map[], e), LinkNodes(e), links);
    if linked.0 == Done {
      assert {} + (set p | p in links) == e.links.Keys;
      FilesEscape(linked.1, e, names, {}, files);
    }
  }

  lemma EscapeHappens(e: Entries, names: set<LocalName>) returns (links: seq<Path>, files: seq<Path>)
    requires WellPathed(e) && EntryEscapes(map[], names, e)
    ensures EscapesInOrder(e, names, links, files)
  {
    hide Place, LinkFits, BehindLink, FileEscapes, Prepared, Placed, IsOrder;
    links := AnyOrder(e.links.Keys);
    files := AnyOrder(e.files.Keys);
    if p :| p in e.links && BehindLink(map[], e, p) {
      links := LinkEscapes(e, p);
    } else {
      var p :| p in e.files && FileEscapes(map[], names, e, p);
      AllLinksPlaced(e, links);
      files := FileBehindEscapes(Place(Prepared(map[], e), LinkNodes(e), links).1, e, names, p);
    }
  }

  // Where all links fit and none lies behind another, every order places them.
  lemma AllLinksPlaced(e: Entries, links: seq<Path>)
    requires WellPathed(e) && IsOrder(links, e.links.Keys)
    requires forall p :: p in e.links ==> LinkFits(map[], e, p) && !BehindLink(map[], e, p)
    ensures var linked := Place(Prepared(map[], e), LinkNodes(e), links);
      linked.0 == Done && Placed(linked.1, Prepared(map[], e), e, e.links.Keys, {})
  {
    hide Place, LinkFits, BehindLink, Prepared, Placed;
    NothingPlaced(Prepared(map[], e), e);
    LinksPlaced(Prepared(map[], e), e, {}, links);
    assert {} + (set p | p in links) == e.links.Keys;
  }

  // A directory, a link in it and a configured path through that link: the
  // file goes wherever the link points.
  lemma PathThroughLinkEscapes(d: Names, l: Name, f: Name, di: DirInfo, li: LinkInfo, fi: FileInfo,
                               names: set<LocalName>)
    requires LocalNameOf(KeyOf(fi)) in names
    ensures var e := Entries(map[PathOf(d + [l, f]) := fi], map[PathOf(d) := di], map[PathOf(d + [l]) := li]);
      WellPathed(e) && CanEscape(map[], names, e)
  {
    hide PathOf, IsClean, CompsOf, LocalNameOf, KeyOf, LinkFits, Lineages, Lineage;
    var p, q := PathOf(d + [l, f]), PathOf(d + [l]);
    var e := Entries(map[p := fi], map[PathOf(d) := di], map[q := li]);
    ThroughLink(d, l, f);
    FitsInDir(e, d, l);
    BehindFitting(e, p, d + [l]);
    assert p in e.files && FileEscapes(map[], names, e, p);
  }

  lemma ThroughLink(d: Names, l: Name, f: Name)
    ensures forall c: Names :: IsClean(PathOf(c))
    ensures PathOf(d + [l, f]) != ROOT && PathOf(d + [l]) != ROOT
    ensures CompsOf(PathOf(d + [l, f])) == d + [l, f]
  {
    hide PathOf, CompsOf;
    assert d + [l, f] == (d + [l]) + [f];
    DirAndBase(d, l);
    DirAndBase(d + [l], f);
    CompsOfPath(d + [l, f]);
  }

  lemma BehindFitting(e: Entries, p: Path, d: Names)
    requires WellPathed(e) && PathOf(d) in e.links && LinkFits(map[], e, PathOf(d)) && d < CompsOf(p)
    ensures BehindLink(map[], e, p)
  {
    assert CompsOf(p)[..|d|] == d;
  }

  lemma FitsInDir(e: Entries, d: Names, l: Name)
    requires WellPathed(e) && e.links.Keys == {PathOf(d + [l])} && e.dirs.Keys == {PathOf(d)}
    ensures LinkFits(map[], e, PathOf(d + [l]))
  {
    hide PathOf, IsClean, CompsOf;
    DirAndBaseOfRoot();
    CompsOfPath(d);
    CompsOfPath(d + [l]);
    assert (d + [l])[..|d|] == d;
    assert Lineages(e.dirs.Keys) == Lineage(d);
  }
}
