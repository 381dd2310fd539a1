// mount.go, addDirChildren: the nodes a mounted archive shows, and their inode
// numbers.
module Inodes {
  import opened Wrappers
  import opened Archive
  import opened Paths
  import opened MountView
  import opened MountTree

  datatype Kind = Directory | Regular | Symlink

  datatype Stable = Stable(kind: Kind, ino: nat)

  // What the path c names: where a directory, a file and a link share a name,
  // the directory is shown, or else the file.
  function KindAt(v: View, c: Names): Option<Kind> {
    if c == [] then None
    else if c in v then Some(Directory)
    else
      var d, n := c[..|c| - 1], c[|c| - 1];
      if d !in v then None
      else if n in v[d].files then Some(Regular)
      else if n in v[d].links then Some(Symlink)
      else None
  }

  type InodeMap = map<Names, Stable>

  ghost predicate Numbered(inodes: InodeMap, last: nat) {
    && (forall c :: c in inodes ==> 1 < inodes[c].ino <= last)
    && (forall a, b :: a in inodes && b in inodes && inodes[a].ino == inodes[b].ino ==> a == b)
  }

  // inodes are before, and what v has below at under a first name in names.
  ghost predicate Shown(before: InodeMap, inodes: InodeMap, v: View, at: Names, names: set<Name>) {
    && (forall c :: c in before ==> c in inodes && inodes[c] == before[c])
    && (forall c :: c in inodes ==> c in before || (at < c && c[|at|] in names))
    && (forall c :: at < c && c[|at|] in names ==> (c in inodes <==> KindAt(v, c).Some?))
    && (forall c :: at < c && c[|at|] in names && c in inodes ==> Some(inodes[c].kind) == KindAt(v, c))
  }

  // inodes are before, and all that v has below at.
  ghost predicate ShownBelow(before: InodeMap, inodes: InodeMap, v: View, at: Names) {
    && (forall c :: c in before ==> c in inodes && inodes[c] == before[c])
    && (forall c :: c in inodes ==> c in before || at < c)
    && (forall c :: at < c ==> (c in inodes <==> KindAt(v, c).Some?))
    && (forall c :: at < c && c in inodes ==> Some(inodes[c].kind) == KindAt(v, c))
  }

  ghost predicate PrefixClosed(v: View) {
    forall d, i :: d in v && 0 <= i <= |d| ==> d[..i] in v
  }

  // Everything below at + [n] needs at + [n] to be a directory.
  lemma BelowIsInDir(v: View, at: Names, c: Names)
    requires PrefixClosed(v) && at < c && KindAt(v, c).Some?
    ensures |c| > |at| + 1 ==> at + [c[|at|]] in v
    ensures |c| == |at| + 1 ==> c == at + [c[|at|]]
  {
    var i := |at| + 1;
    assert c[..i] == at + [c[|at|]];
    if |c| > i {
      var d := if c in v then c else c[..|c| - 1];
      assert d in v && d[..i] == c[..i];
    } else {
      assert c[..i] == c;
    }
  }

  lemma SubtreesAreClosed(nodes: Nodes)
    requires IsTree(nodes)
    ensures PrefixClosed(ViewOf(nodes))
  {
    forall d, i | d in nodes && 0 <= i <= |d| ensures d[..i] in nodes {
      assert d == d[..i] + d[i..];
      PrefixOfNode(nodes, d[..i], d[i..]);
    }
  }

  // A file or link put where nothing of that name is yet.
  lemma OneShown(before: InodeMap, mid: InodeMap, v: View, at: Names, names: set<Name>, n: Name, s: Stable)
    requires Shown(before, mid, v, at, names) && NothingBelow(before, at) && PrefixClosed(v)
    requires KindAt(v, at + [n]).Some? && (n !in names ==> at + [n] !in v && KindAt(v, at + [n]) == Some(s.kind))
    ensures Shown(before, if at + [n] in mid then mid else mid[at + [n] := s], v, at, names + {n})
  {
    hide KindAt;
    var below := at + [n];
    assert at < below && below[|at|] == n;
    var inodes := if below in mid then mid else mid[below := s];
    forall c | at < c && c[|at|] in names + {n}
      ensures c in inodes <==> KindAt(v, c).Some?
      ensures c in inodes ==> Some(inodes[c].kind) == KindAt(v, c)
    {
      if KindAt(v, c).Some? {
        BelowIsInDir(v, at, c);
      }
    }
  }

  lemma DirectoryKind(v: View, at: Names, n: Name)
    requires at + [n] in v
    ensures KindAt(v, at + [n]) == Some(Directory)
  {
  }

  // A directory put there, and then all that is below it.
  lemma SubtreeShown(before: InodeMap, mid: InodeMap, inodes: InodeMap, v: View, at: Names, names: set<Name>, n: Name,
                     s: Stable)
    requires Shown(before, mid, v, at, names) && NothingBelow(before, at) && PrefixClosed(v)
    requires n !in names && at + [n] in v && s.kind == Directory
    requires ShownBelow(mid[at + [n] := s], inodes, v, at + [n])
    ensures Shown(before, inodes, v, at, names + {n})
  {
    hide KindAt;
    var below := at + [n];
    assert at < below && below[|at|] == n;
    DirectoryKind(v, at, n);
    forall c | c in inodes ensures c in before || (at < c && c[|at|] in names + {n}) {
      Fork(at, n, c);
    }
    forall c | at < c && c[|at|] in names + {n}
      ensures c in inodes <==> KindAt(v, c).Some?
      ensures c in inodes ==> Some(inodes[c].kind) == KindAt(v, c)
    {
      Fork(at, n, c);
    }
  }

  // Below at under the name n: at + [n] itself, and what is below that.
  lemma Fork(at: Names, n: Name, c: Names)
    ensures at < c && c[|at|] == n <==> c == at + [n] || at + [n] < c
  {
  }

  lemma NothingYet(before: InodeMap, v: View, at: Names)
    ensures Shown(before, before, v, at, {})
  {
  }

  lemma NoneBelowChild(before: InodeMap, mid: InodeMap, v: View, at: Names, names: set<Name>, n: Name, s: Stable)
    requires Shown(before, mid, v, at, names) && NothingBelow(before, at) && n !in names
    ensures at + [n] !in mid && NothingBelow(mid[at + [n] := s], at + [n])
  {
  }

  lemma AllShown(before: InodeMap, inodes: InodeMap, v: View, at: Names, names: set<Name>)
    requires Shown(before, inodes, v, at, names) && NothingBelow(before, at) && PrefixClosed(v) && at in v
    requires forall n: Name :: n in names <==> at + [n] in v || n in v[at].files || n in v[at].links
    ensures ShownBelow(before, inodes, v, at)
  {
    forall c | at < c ensures c[|at|] !in names ==> KindAt(v, c).None? {
      if KindAt(v, c).Some? {
        BelowIsInDir(v, at, c);
        if |c| == |at| + 1 {
          assert c[..|c| - 1] == at;
        }
      }
    }
  }

  // The names at at that are taken before entries of this kind come.
  ghost predicate IsOthers(v: View, at: Names, others: set<Name>, kind: Kind)
    requires at in v
  {
    && (forall n: Name :: n in others ==> KindAt(v, at + [n]).Some?)
    && (forall n: Name :: at + [n] in v ==> n in others)
    && (kind == Symlink ==> v[at].files.Keys <= others)
  }

  lemma DirsAreOthers(v: View, at: Names, dirs: set<Name>)
    requires at in v && forall n: Name :: n in dirs <==> at + [n] in v
    ensures IsOthers(v, at, dirs, Regular)
    ensures IsOthers(v, at, dirs + v[at].files.Keys, Symlink)
  {
  }

  lemma EntryKind(v: View, at: Names, others: set<Name>, kind: Kind, n: Name)
    requires at in v && IsOthers(v, at, others, kind)
    requires (kind == Regular && n in v[at].files) || (kind == Symlink && n in v[at].links)
    ensures KindAt(v, at + [n]).Some?
    ensures n !in others ==> at + [n] !in v && KindAt(v, at + [n]) == Some(kind)
  {
  }

  // The directories at or below at.
  ghost function Below(dirs: set<Names>, at: Names): set<Names> {
    set d | d in dirs && at <= d
  }

  lemma FewerBelow(dirs: set<Names>, at: Names, n: Name)
    requires at in dirs
    ensures Below(dirs, at + [n]) < Below(dirs, at)
  {
    assert at in Below(dirs, at) && at !in Below(dirs, at + [n]);
    forall d | d in Below(dirs, at + [n]) ensures d in Below(dirs, at) {
    }
  }

  ghost predicate NothingBelow(inodes: InodeMap, at: Names) {
    forall c :: c in inodes ==> !(at < c)
  }

  class MountRoot {
    var nextIno: nat
    var inodes: InodeMap // by the path they hang at

    constructor ()
      ensures nextIno == 1 && inodes == map[]
    {
      nextIno := 1;
      inodes := map[];
    }

    method NextStable(kind: Kind) returns (s: Stable)
      modifies this`nextIno
      ensures nextIno == old(nextIno) + 1 && s == Stable(kind, nextIno)
    {
      nextIno := nextIno + 1;
      s := Stable(kind, nextIno);
    }

    // AddChild with overwrite false: a name that is taken stays as it is.
    method AddChild(c: Names, kind: Kind) returns (ghost s: Stable)
      requires Numbered(inodes, nextIno) && 0 < nextIno
      modifies this
      ensures Numbered(inodes, nextIno) && old(nextIno) < nextIno
      ensures s == Stable(kind, nextIno)
      ensures inodes == if c in old(inodes) then old(inodes) else old(inodes)[c := s]
    {
      var child := NextStable(kind);
      s := child;
      if c !in inodes {
        inodes := inodes[c := child];
      }
    }

    // addDirChildren below the inode at at, in any order of the names.
    method AddDirChildren(at: Names, tree: MountDir, ghost nodes: Nodes)
      requires IsTree(nodes) && at in nodes && nodes[at] == tree
      requires Numbered(inodes, nextIno) && NothingBelow(inodes, at) && 0 < nextIno
      modifies this
      ensures Numbered(inodes, nextIno) && old(nextIno) <= nextIno
      ensures ShownBelow(old(inodes), inodes, ViewOf(nodes), at)
      decreases Below(nodes.Keys, at), 1
    {
      hide TreeShape, KindAt, Shown, ShownBelow, NothingBelow, PrefixClosed, Numbered, Below;
      ghost var before, v := inodes, ViewOf(nodes);
      SubtreesAreClosed(nodes);
      NothingYet(before, v, at);
      forall n: Name
        ensures n in tree.dirs <==> at + [n] in nodes
        ensures n in tree.dirs ==> tree.dirs[n] == nodes[at + [n]]
      {
        BranchIff(nodes, BranchesOf(nodes), at, n);
      }
      AddDirs(at, tree.dirs, nodes, v, before);
      DirsAreOthers(v, at, tree.dirs.Keys);
      AddFiles(at, tree.files, v, before, tree.dirs.Keys);
      AddLinks(at, tree.links, v, before, tree.dirs.Keys + tree.files.Keys);
      AllShown(before, inodes, v, at, tree.dirs.Keys + tree.files.Keys + tree.links.Keys);
    }

    // Its loop over the directories.
    method AddDirs(at: Names, dirs: map<Name, MountDir>, ghost nodes: Nodes, ghost v: View, ghost before: InodeMap)
      requires IsTree(nodes) && at in nodes && v == ViewOf(nodes) && PrefixClosed(v)
      requires forall n: Name :: n in dirs ==> at + [n] in nodes && nodes[at + [n]] == dirs[n]
      requires Numbered(inodes, nextIno) && 0 < nextIno && NothingBelow(before, at) && Shown(before, inodes, v, at, {})
      modifies this
      ensures Numbered(inodes, nextIno) && old(nextIno) <= nextIno
      ensures Shown(before, inodes, v, at, dirs.Keys)
      decreases Below(nodes.Keys, at), 0
    {
      hide IsTree, ViewOf, KindAt, Shown, ShownBelow, NothingBelow, PrefixClosed, Numbered, Below;
      ViewKeys(nodes);
      var todo := dirs.Keys;
      assert dirs.Keys - todo == {};
      while todo != {}
        invariant todo <= dirs.Keys && Numbered(inodes, nextIno) && old(nextIno) <= nextIno
        invariant Shown(before, inodes, v, at, dirs.Keys - todo)
        decreases todo
      {
        ghost var some := ElementOf(todo);
        var n :| n in todo;
        ghost var mid := inodes;
        ghost var s := AddChild(at + [n], Directory);
        NoneBelowChild(before, mid, v, at, dirs.Keys - todo, n, s);
        FewerBelow(nodes.Keys, at, n);
        AddDirChildren(at + [n], dirs[n], nodes);
        SubtreeShown(before, mid, inodes, v, at, dirs.Keys - todo, n, s);
        assert dirs.Keys - (todo - {n}) == dirs.Keys - todo + {n};
        todo := todo - {n};
      }
      assert dirs.Keys - todo == dirs.Keys;
    }

    // Its loop over the files.
    method AddFiles(at: Names, files: map<Name, FileInfo>, ghost v: View, ghost before: InodeMap,
                    ghost others: set<Name>)
      requires PrefixClosed(v) && at in v && v[at].files == files
      requires Numbered(inodes, nextIno) && 0 < nextIno && NothingBelow(before, at)
      requires Shown(before, inodes, v, at, others) && IsOthers(v, at, others, Regular)
      modifies this
      ensures Numbered(inodes, nextIno) && old(nextIno) <= nextIno
      ensures Shown(before, inodes, v, at, others + files.Keys)
    {
      hide KindAt, Shown, NothingBelow, PrefixClosed, Numbered, IsOthers;
      var todo := files.Keys;
      assert others + (files.Keys - todo) == others;
      while todo != {}
        invariant todo <= files.Keys && Numbered(inodes, nextIno) && old(nextIno) <= nextIno
        invariant Shown(before, inodes, v, at, others + (files.Keys - todo))
        decreases todo
      {
        ghost var some := ElementOf(todo);
        var n :| n in todo;
        ghost var mid := inodes;
        ghost var s := AddChild(at + [n], Regular);
        EntryKind(v, at, others, Regular, n);
        OneShown(before, mid, v, at, others + (files.Keys - todo), n, s);
        assert others + (files.Keys - (todo - {n})) == others + (files.Keys - todo) + {n};
        todo := todo - {n};
      }
      assert files.Keys - todo == files.Keys;
    }

    // Its loop over the links.
    method AddLinks(at: Names, links: map<Name, LinkInfo>, ghost v: View, ghost before: InodeMap,
                    ghost others: set<Name>)
      requires PrefixClosed(v) && at in v && v[at].links == links
      requires Numbered(inodes, nextIno) && 0 < nextIno && NothingBelow(before, at)
      requires Shown(before, inodes, v, at, others) && IsOthers(v, at, others, Symlink)
      modifies this
      ensures Numbered(inodes, nextIno) && old(nextIno) <= nextIno
      ensures Shown(before, inodes, v, at, others + links.Keys)
    {
      hide KindAt, Shown, NothingBelow, PrefixClosed, Numbered, IsOthers;
      var todo := links.Keys;
      assert others + (links.Keys - todo) == others;
      while todo != {}
        invariant todo <= links.Keys && Numbered(inodes, nextIno) && old(nextIno) <= nextIno
        invariant Shown(before, inodes, v, at, others + (links.Keys - todo))
        decreases todo
      {
        ghost var some := ElementOf(todo);
        var n :| n in todo;
        ghost var mid := inodes;
        ghost var s := AddChild(at + [n], Symlink);
        EntryKind(v, at, others, Symlink, n);
        OneShown(before, mid, v, at, others + (links.Keys - todo), n, s);
        assert others + (links.Keys - (todo - {n})) == others + (links.Keys - todo) + {n};
        todo := todo - {n};
      }
      assert links.Keys - todo == links.Keys;
    }

    // OnAdd
    method OnAdd(tree: MountDir, ghost nodes: Nodes)
      requires IsTree(nodes) && [] in nodes && nodes[[]] == tree && nextIno == 1 && inodes == map[]
      modifies this
      ensures Numbered(inodes, nextIno)
      ensures forall c :: if c in inodes then KindAt(ViewOf(nodes), c) == Some(inodes[c].kind)
        else KindAt(ViewOf(nodes), c).None?
    {
      hide TreeShape;
      AddDirChildren([], tree, nodes);
      forall c ensures KindAt(ViewOf(nodes), c).Some? ==> [] < c {
      }
    }
  }

  // What a path of the index is shown as.
  lemma KindOfPath(v: View, e: Entries, p: Path)
    requires Shows(v, e) && IsClean(p) && p != ROOT
    ensures KindAt(v, CompsOf(p)) ==
      if CompsOf(p) in NodeSet(e.dirs.Keys, e.files.Keys + e.links.Keys) then Some(Directory)
      else if p in e.files then Some(Regular)
      else if p in e.links then Some(Symlink)
      else None
  {
    hide NodeSet, PathOf, CompsOf, Dir;
    var d, n := TakeApart(p);
    var c := d + [n];
    assert c[..|c| - 1] == d && c[|c| - 1] == n;
    if d in v {
      assert ShowsAt(v[d], e, d);
    } else {
      AbsentIsEmpty(e, d);
    }
  }
}
