// link.go:19-24, the modes of the directories a link makes: os.MkdirAll gives
// what it makes above a path that path's mode and leaves alone what is there,
// so the range over the map decides which directory comes first.
module DirModes {
  import opened Wrappers
  import opened Archive
  import opened Paths
  import opened MountView

  // Every path of a set, once each.
  ghost predicate IsOrder(order: seq<Path>, all: set<Path>) {
    && (forall p :: p in order <==> p in all)
    && (forall i, j :: 0 <= i < j < |order| ==> order[i] != order[j])
  }

  ghost predicate AtOrBelow(p: Path, d: Names) {
    d in Lineage(CompsOf(p))
  }

  // The modes of what is made where only there is at first, one indexed
  // directory after another.
  ghost function MadeModes(order: seq<Path>, dirs: Dirs, there: set<Names>): map<Names, nat>
    requires forall p :: p in order ==> p in dirs
  {
    if order == [] then map[]
    else
      var last := order[|order| - 1];
      var before := MadeModes(order[..|order| - 1], dirs, there);
      before + map d | d in Lineage(CompsOf(last)) && d !in there && d !in before :: dirs[last].mode
  }

  // Every directory at or above an indexed one is made, with the mode of
  // order[i], the first indexed directory at or below it.
  lemma {:induction false} MadeByFirst(order: seq<Path>, dirs: Dirs, there: set<Names>, d: Names) returns (i: nat)
    requires forall p :: p in order ==> p in dirs
    ensures i <= |order| && forall j :: 0 <= j < i ==> !AtOrBelow(order[j], d)
    ensures i < |order| ==> AtOrBelow(order[i], d)
    ensures var made := MadeModes(order, dirs, there);
      (d in made <==> d !in there && i < |order|) && (d in made ==> made[d] == dirs[order[i]].mode)
  {
    hide Lineage, CompsOf;
    i := 0;
    if order != [] {
      var n := |order| - 1;
      i := MadeByFirst(order[..n], dirs, there, d);
      if i == n && !AtOrBelow(order[n], d) {
        i := n + 1;
      }
    }
  }

  lemma MadeNext(order: seq<Path>, dirs: Dirs, there: set<Names>, p: Path)
    requires p in dirs && forall q :: q in order ==> q in dirs
    ensures forall q :: q in order + [p] ==> q in dirs
    ensures var made := MadeModes(order, dirs, there);
      MadeModes(order + [p], dirs, there) ==
        made + map d | d in Lineage(CompsOf(p)) && d !in there && d !in made :: dirs[p].mode
  {
    hide Lineage, CompsOf;
    assert (order + [p])[..|order|] == order;
  }

  lemma MadeKeys(order: seq<Path>, done: set<Path>, dirs: Dirs, there: set<Names>)
    requires IsOrder(order, done) && done <= dirs.Keys
    ensures forall q :: q in order ==> q in dirs
    ensures MadeModes(order, dirs, there).Keys == Lineages(done) - there
  {
    hide MadeModes, Lineage, CompsOf;
    forall d ensures d in MadeModes(order, dirs, there) <==> d in Lineages(done) && d !in there {
      var i := MadeByFirst(order, dirs, there, d);
      if i < |order| {
        assert order[i] in done;
      }
    }
  }

  lemma NothingOrdered(dirs: Dirs, there: set<Names>)
    ensures IsOrder([], {}) && MadeModes([], dirs, there) == map[]
  {
  }

  lemma OneMorePath(order: seq<Path>, done: set<Path>, p: Path)
    requires IsOrder(order, done) && p !in done
    ensures IsOrder(order + [p], done + {p})
  {
  }

  // ---- modes that come back ----

  ghost predicate ModesKept(modes: map<Names, nat>, dirs: Dirs) {
    forall p :: p in dirs ==> CompsOf(p) in modes && modes[CompsOf(p)] == dirs[p].mode
  }

  // An indexed directory has the mode of the indexed ones above it.
  ghost predicate NestedAgree(dirs: Dirs) {
    forall p, q :: p in dirs && q in dirs && AtOrBelow(q, CompsOf(p)) ==> dirs[p].mode == dirs[q].mode
  }

  lemma AgreeingAreKept(order: seq<Path>, dirs: Dirs)
    requires IsOrder(order, dirs.Keys) && NestedAgree(dirs)
    ensures ModesKept(MadeModes(order, dirs, {}), dirs)
  {
    hide MadeModes, Lineage, CompsOf;
    var made := MadeModes(order, dirs, {});
    forall p | p in dirs ensures CompsOf(p) in made && made[CompsOf(p)] == dirs[p].mode {
      var k :| 0 <= k < |order| && order[k] == p;
      assert AtOrBelow(order[k], CompsOf(p));
      var i := MadeByFirst(order, dirs, {}, CompsOf(p));
      assert order[i] in order;
    }
  }

  lemma {:induction false} OrderStarting(all: set<Path>, first: Path) returns (order: seq<Path>)
    requires first in all
    ensures IsOrder(order, all) && order[0] == first
  {
    var rest := all - {first};
    if rest == {} {
      order := [first];
    } else {
      var next := ElementOf(rest);
      var tail := OrderStarting(rest, next);
      order := [first] + tail;
    }
  }

  // If every order keeps the modes, nested directories agree: one that does
  // not agree with what is above it can come first.
  lemma KeptModesAgree(dirs: Dirs, p: Path, q: Path)
    requires p in dirs && q in dirs && AtOrBelow(q, CompsOf(p))
    requires forall order :: IsOrder(order, dirs.Keys) ==> ModesKept(MadeModes(order, dirs, {}), dirs)
    ensures dirs[p].mode == dirs[q].mode
  {
    hide MadeModes, Lineage, CompsOf;
    var order := OrderStarting(dirs.Keys, q);
    assert ModesKept(MadeModes(order, dirs, {}), dirs);
    var i := MadeByFirst(order, dirs, {}, CompsOf(p));
    assert !AtOrBelow(order[0], CompsOf(p)) || i == 0;
  }

  // In an empty target the recorded modes of the directories come back,
  // whatever the order, exactly if nested indexed directories agree on them.
  lemma DirModesKeptIff(dirs: Dirs)
    ensures (forall order :: IsOrder(order, dirs.Keys) ==> ModesKept(MadeModes(order, dirs, {}), dirs)) <==>
      NestedAgree(dirs)
  {
    hide MadeModes, ModesKept, AtOrBelow, CompsOf;
    if NestedAgree(dirs) {
      forall order | IsOrder(order, dirs.Keys) ensures ModesKept(MadeModes(order, dirs, {}), dirs) {
        AgreeingAreKept(order, dirs);
      }
    }
    if forall order :: IsOrder(order, dirs.Keys) ==> ModesKept(MadeModes(order, dirs, {}), dirs) {
      forall p, q | p in dirs && q in dirs && AtOrBelow(q, CompsOf(p)) ensures dirs[p].mode == dirs[q].mode {
        KeptModesAgree(dirs, p, q);
      }
    }
  }

  // /a with 0755 and /a/b with 0700: if /a/b comes first, /a gets 0700.
  const OUTER: Path := [0x2F, 0x61]
  const INNER: Path := [0x2F, 0x61, 0x2F, 0x62]
  const TWO_NESTED_DIRS := map[OUTER := DirInfo(493), INNER := DirInfo(448)]

  lemma InnerModeSpreads()
    ensures IsOrder([INNER, OUTER], TWO_NESTED_DIRS.Keys)
    ensures var made := MadeModes([INNER, OUTER], TWO_NESTED_DIRS, {});
      CompsOf(OUTER) in made && made[CompsOf(OUTER)] == 448 != TWO_NESTED_DIRS[OUTER].mode
  {
    hide MadeModes, Lineage, CompsOf;
    var order := [INNER, OUTER];
    assert |INNER| == 4 && |OUTER| == 2;
    NestedComps();
    var i := MadeByFirst(order, TWO_NESTED_DIRS, {}, CompsOf(OUTER));
    assert !AtOrBelow(order[0], CompsOf(OUTER)) || i == 0;
  }

  lemma NestedComps()
    ensures AtOrBelow(INNER, CompsOf(OUTER))
  {
    var a: Name, b: Name := [0x61], [0x62];
    RenderLast([], a);
    RenderLast([a], b);
    assert [] + [a] == [a] && [a] + [b] == [a, b];
    assert PathOf([a]) == OUTER && PathOf([a, b]) == INNER;
    CompsOfPath([a]);
    CompsOfPath([a, b]);
    assert [a, b][..1] == [a];
  }
}
