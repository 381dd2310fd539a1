// The directory an archive is restored into: downloaded chunks, the index
// that came with them, and below restore/ the rebuilt tree. One method per
// file system call; any of them may fail for reasons of its own.
module Targets {
  import opened Utf8
  import opened Wrappers
  import opened PathCodec
  import opened ChunkKeys
  import opened Archive
  import opened IndexDoc
  import opened Paths
  import opened MountView

  // chunks/<last two characters of the name>/<name>
  type LocalName = (Bytes, Bytes)

  function LocalNameOf(k: Key): LocalName {
    var name := ChunkPath(k);
    assert |HexEncode(k.hash)| == 40;
    (name[|name| - 2..], name)
  }

  lemma LocalNameInjective(a: Key, b: Key)
    requires LocalNameOf(a) == LocalNameOf(b)
    ensures a == b
  {
    ChunkPathInjective(a, b);
  }

  // The directory of a chunk's file is the text of the last byte of its hash.
  lemma LocalNameShape(k: Key)
    ensures LocalNameOf(k) == ([LOWER_DIGITS[k.hash[19] / 16], LOWER_DIGITS[k.hash[19] % 16]], ChunkPath(k))
  {
    HexDigitsAt(k.hash, 19);
    var hex := HexEncode(k.hash);
    assert ChunkPath(k) == FormatInt(k.size) + [DASH] + hex && LocalNameOf(k).0 == [hex[38], hex[39]];
  }

  // A regular file. Hard links to it share its bytes and its attributes.
  datatype Inode = Inode(content: Bytes, mode: nat, modTime: int)

  datatype FsNode = FsDir | FsLink(to: Path) | FsFile(of: LocalName)

  type Tree = map<Names, FsNode>

  // Escaped: the path lies behind a symbolic link of the tree, and where the
  // operating system takes it from there is not part of this model. Faulty:
  // the disk or its permissions, whatever the layout.
  datatype Outcome = Done | Refused | Escaped | Faulty

  predicate CanMkdir(tree: Tree, cs: Names) {
    forall d :: d in Lineage(cs) && d in tree ==> tree[d].FsDir?
  }

  function Mkdirs(tree: Tree, dirs: set<Names>): Tree {
    tree + map d | d in dirs && d !in tree :: FsDir
  }

  // The directories above cs that are shorter than i are there.
  ghost predicate MadeUpTo(tree0: Tree, tree: Tree, cs: Names, i: nat) {
    && (forall d: Names :: d in tree <==> d in tree0 || (d <= cs && |d| < i))
    && (forall d: Names :: d in tree ==> tree[d] == if d in tree0 then tree0[d] else FsDir)
    && (forall d: Names :: d in tree0 && d <= cs && |d| < i ==> tree0[d].FsDir?)
  }

  lemma NoneMade(tree: Tree, cs: Names)
    ensures MadeUpTo(tree, tree, cs, 0)
  {
  }

  lemma OneMade(tree0: Tree, tree: Tree, cs: Names, i: nat)
    requires MadeUpTo(tree0, tree, cs, i) && i <= |cs|
    ensures cs[..i] in tree <==> cs[..i] in tree0
    ensures cs[..i] in tree ==> tree[cs[..i]] == tree0[cs[..i]]
    ensures cs[..i] in tree ==> (tree[cs[..i]].FsDir? || !CanMkdir(tree0, cs))
    ensures (cs[..i] in tree ==> tree[cs[..i]].FsDir?) ==> MadeUpTo(tree0, tree[cs[..i] := FsDir], cs, i + 1)
  {
    hide Lineage;
    LineageIsPrefixes(cs, cs[..i]);
    forall d: Names | d <= cs && |d| == i ensures d == cs[..i] {
    }
  }

  lemma AllMade(tree0: Tree, tree: Tree, cs: Names)
    requires MadeUpTo(tree0, tree, cs, |cs| + 1)
    ensures CanMkdir(tree0, cs) && tree == Mkdirs(tree0, Lineage(cs))
  {
    hide Lineage;
    forall d: Names ensures d in Lineage(cs) <==> d <= cs {
      LineageIsPrefixes(cs, d);
    }
  }

  predicate CanPlace(tree: Tree, cs: Names)
    requires cs != []
  {
    var d := cs[..|cs| - 1];
    cs !in tree && d in tree && tree[d].FsDir?
  }

  // No symbolic link stands above cs.
  predicate Direct(tree: Tree, cs: Names) {
    forall i | 0 <= i < |cs| :: cs[..i] in tree ==> !tree[cs[..i]].FsLink?
  }

  // Nor at cs itself, which os.MkdirAll would follow.
  predicate AllDirect(tree: Tree, cs: Names) {
    Direct(tree, cs) && (cs in tree ==> !tree[cs].FsLink?)
  }

  // The modes of the directories that are new, all made with one mode.
  function NewModes(tree0: Tree, tree: Tree, mode: nat): map<Names, nat> {
    map d | d in tree && d !in tree0 :: mode
  }

  lemma OneMode(tree0: Tree, tree: Tree, modes0: map<Names, nat>, mode: nat, d: Names)
    requires d in tree0 ==> d in tree
    ensures NewModes(tree0, tree0, mode) == map[]
    ensures modes0 + NewModes(tree0, tree[d := FsDir], mode) ==
      var modes := modes0 + NewModes(tree0, tree, mode);
      if d in tree then modes else modes[d := mode]
  {
  }

  class Target {
    var chunks: map<LocalName, Inode>
    var index: Option<Doc>
    var tree: Tree
    var modes: map<Names, nat> // of the directories in the tree

    // How many operations have failed for reasons of their own.
    ghost var faults: nat

    // index.Save
    method SaveIndex(doc: Doc) returns (ok: bool)
      modifies this`index, this`faults
      ensures index == if ok then Some(doc) else old(index)
      ensures faults == if ok then old(faults) else old(faults) + 1
    {
      ok := *;
      faults := if ok then faults else faults + 1;
      if ok {
        index := Some(doc);
      }
    }

    // What index.Load reads.
    method ReadIndex() returns (r: Result<Doc, ()>)
      modifies this`faults
      ensures r.Ok? ==> index == Some(r.value)
      ensures faults == if r.Ok? || index.None? then old(faults) else old(faults) + 1
    {
      var ok := *;
      faults := if ok || index.None? then faults else faults + 1;
      r := if ok && index.Some? then Ok(index.value) else Err(());
    }

    // The directory a chunk goes into.
    method MakeChunkDir() returns (ok: bool)
      modifies this`faults
      ensures faults == if ok then old(faults) else old(faults) + 1
    {
      ok := *;
      faults := if ok then faults else faults + 1;
    }

    // os.MkdirAll: what is missing is made with the given mode, what is there
    // keeps its own.
    method MkdirAll(cs: Names, mode: nat) returns (r: Outcome)
      modifies this`tree, this`modes, this`faults
      ensures faults == if r.Faulty? then old(faults) + 1 else old(faults)
      ensures r.Escaped? <==> !AllDirect(old(tree), cs)
      ensures r.Done? ==> CanMkdir(old(tree), cs) && tree == Mkdirs(old(tree), Lineage(cs))
      ensures r.Refused? ==> !CanMkdir(old(tree), cs)
      ensures !r.Escaped? ==> modes == old(modes) + NewModes(old(tree), tree, mode)
    {
      hide Lineage, MadeUpTo, AllDirect, NewModes;
      if !AllDirect(tree, cs) {
        tree, modes := *, *;
        return Escaped;
      }
      ghost var tree0 := tree;
      NoneMade(tree0, cs);
      OneMode(tree0, tree0, modes, mode, cs);
      for i := 0 to |cs| + 1
        invariant MadeUpTo(tree0, tree, cs, i) && faults == old(faults)
        invariant modes == old(modes) + NewModes(tree0, tree, mode)
      {
        var ok := *;
        if !ok {
          faults := faults + 1;
          return Faulty;
        }
        OneMade(tree0, tree, cs, i);
        if cs[..i] in tree && !tree[cs[..i]].FsDir? {
          return Refused;
        }
        OneMode(tree0, tree, old(modes), mode, cs[..i]);
        modes := if cs[..i] in tree then modes else modes[cs[..i] := mode];
        tree := tree[cs[..i] := FsDir];
      }
      AllMade(tree0, tree, cs);
      return Done;
    }

    // os.Symlink
    method Symlink(to: Path, cs: Names) returns (r: Outcome)
      requires cs != []
      modifies this`tree, this`faults
      ensures faults == if r.Faulty? then old(faults) + 1 else old(faults)
      ensures r.Escaped? <==> !Direct(old(tree), cs)
      ensures r.Done? ==> CanPlace(old(tree), cs) && tree == old(tree)[cs := FsLink(to)]
      ensures r.Refused? ==> !CanPlace(old(tree), cs)
    {
      if !Direct(tree, cs) {
        tree := *;
        return Escaped;
      }
      if !CanPlace(tree, cs) {
        return Refused;
      }
      var ok := *;
      faults := if ok then faults else faults + 1;
      if ok {
        tree := tree[cs := FsLink(to)];
      }
      return if ok then Done else Faulty;
    }

    // os.Link of a downloaded chunk
    method Link(name: LocalName, cs: Names) returns (r: Outcome)
      requires cs != []
      modifies this`tree, this`faults
      ensures faults == if r.Faulty? then old(faults) + 1 else old(faults)
      ensures r.Escaped? <==> name in chunks && !Direct(old(tree), cs)
      ensures r.Done? ==> name in chunks && CanPlace(old(tree), cs) && tree == old(tree)[cs := FsFile(name)]
      ensures r.Refused? ==> !(name in chunks && CanPlace(old(tree), cs))
    {
      if name !in chunks {
        return Refused;
      }
      if !Direct(tree, cs) {
        tree := *;
        return Escaped;
      }
      if !CanPlace(tree, cs) {
        return Refused;
      }
      var ok := *;
      faults := if ok then faults else faults + 1;
      if ok {
        tree := tree[cs := FsFile(name)];
      }
      return if ok then Done else Faulty;
    }

    // os.Chmod and os.Chtimes, through any hard link of the chunk
    method SetAttributes(name: LocalName, mode: nat, modTime: int) returns (r: Outcome)
      requires name in chunks
      modifies this`chunks, this`faults
      ensures r.Done? || r.Faulty?
      ensures faults == if r.Faulty? then old(faults) + 1 else old(faults)
      ensures SameContents(old(chunks), chunks)
      ensures r.Done? ==> chunks == old(chunks)[name := Inode(old(chunks)[name].content, mode, modTime)]
    {
      var moded, timed := *, *;
      if !moded {
        faults := faults + 1;
        return Faulty;
      }
      chunks := chunks[name := chunks[name].(mode := mode)];
      if !timed {
        faults := faults + 1;
        return Faulty;
      }
      chunks := chunks[name := chunks[name].(modTime := modTime)];
      return Done;
    }
  }

  predicate SameContents(a: map<LocalName, Inode>, b: map<LocalName, Inode>) {
    a.Keys == b.Keys && forall n :: n in a ==> b[n].content == a[n].content
  }
}
