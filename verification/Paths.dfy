// Clean absolute paths, as filepath.WalkDir and path.Join produce them, and
// Go's path.Dir and path.Base on those.
module Paths {
  import opened Utf8
  import opened Wrappers
  import opened ChunkKeys
  import opened Archive

  const DOT: byte := 0x2E
  const ROOT: Path := [SLASH]

  predicate IsName(n: Bytes) {
    n != [] && SLASH !in n && n != [DOT] && n != [DOT, DOT]
  }

  type Name = n: Bytes | IsName(n) witness [0x61]
  type Names = seq<Name>

  function Render(cs: Names): Path {
    if cs == [] then [] else [SLASH] + cs[0] + Render(cs[1..])
  }

  function PathOf(cs: Names): Path {
    if cs == [] then ROOT else Render(cs)
  }

  ghost predicate IsClean(p: Path) {
    exists cs: Names :: p == PathOf(cs)
  }

  // ---- a clean path has one list of components ----

  lemma {:induction false} SplitFirst(a: Bytes, sep: byte, b: Bytes)
    requires sep !in a
    ensures Split(a + [sep] + b, sep) == [a] + Split(b, sep)
  {
    var s := a + [sep] + b;
    if a == [] {
      assert s[1..] == b;
    } else {
      assert s[1..] == a[1..] + [sep] + b;
      SplitFirst(a[1..], sep, b);
      assert a == [a[0]] + a[1..];
    }
  }

  lemma {:induction false} SplitRender(cs: Names)
    requires cs != []
    ensures Render(cs)[0] == SLASH && Split(Render(cs)[1..], SLASH) == cs
  {
    var rest := cs[1..];
    if rest == [] {
      assert Render(cs)[1..] == cs[0];
      SplitPlain(cs[0], SLASH);
    } else {
      SplitRender(rest);
      assert Render(rest) == [SLASH] + Render(rest)[1..];
      assert Render(cs)[1..] == cs[0] + [SLASH] + Render(rest)[1..];
      SplitFirst(cs[0], SLASH, Render(rest)[1..]);
    }
  }

  lemma PathOfInjective(a: Names, b: Names)
    requires PathOf(a) == PathOf(b)
    ensures a == b
  {
    if a != [] {
      SplitRender(a);
    }
    if b != [] {
      SplitRender(b);
    }
    assert Split([], SLASH) == [[]];
    assert ROOT[1..] == [];
  }

  ghost function CompsOf(p: Path): (cs: Names)
    ensures IsClean(p) ==> PathOf(cs) == p
  {
    if IsClean(p) then var cs: Names :| p == PathOf(cs); cs else []
  }

  lemma CompsOfPath(cs: Names)
    ensures IsClean(PathOf(cs)) && CompsOf(PathOf(cs)) == cs
  {
    PathOfInjective(CompsOf(PathOf(cs)), cs);
  }

  // ---- path.Dir and path.Base ----

  function LastSlash(p: Path): (i: int)
    ensures -1 <= i < |p|
    ensures i >= 0 ==> p[i] == SLASH
    ensures forall k :: i < k < |p| ==> p[k] != SLASH
  {
    if p == [] then -1
    else if p[|p| - 1] == SLASH then |p| - 1
    else LastSlash(p[..|p| - 1])
  }

  function Dir(p: Path): Path {
    if LastSlash(p) <= 0 then ROOT else p[..LastSlash(p)]
  }

  function Base(p: Path): Path {
    if p == ROOT then ROOT else p[LastSlash(p) + 1..]
  }

  lemma {:induction false} RenderLast(cs: Names, n: Name)
    ensures Render(cs + [n]) == Render(cs) + [SLASH] + n
  {
    var all := cs + [n];
    if cs == [] {
      assert all[1..] == [];
    } else {
      var rest := cs[1..];
      assert all[1..] == rest + [n] && all[0] == cs[0];
      RenderLast(rest, n);
      ConcatAssociative([SLASH] + cs[0], Render(rest), [SLASH] + n);
    }
  }

  lemma LastSlashBefore(a: Bytes, n: Name)
    ensures LastSlash(a + [SLASH] + n) == |a|
  {
    var p := a + [SLASH] + n;
    assert p[|a|] == SLASH && forall k :: |a| < k < |p| ==> p[k] == n[k - |a| - 1];
  }

  lemma DirAndBase(cs: Names, n: Name)
    ensures Dir(PathOf(cs + [n])) == PathOf(cs)
    ensures Base(PathOf(cs + [n])) == n
    ensures PathOf(cs + [n]) != ROOT
  {
    hide Render, LastSlash;
    var a := Render(cs);
    RenderLast(cs, n);
    LastSlashBefore(a, n);
    var p := a + [SLASH] + n;
    assert p[..|a|] == a && p[|a| + 1..] == n;
    RenderEmptyIff(cs);
  }

  lemma RenderEmptyIff(cs: Names)
    ensures |Render(cs)| == 0 <==> cs == []
  {
  }

  lemma DirAndBaseOfRoot()
    ensures Dir(ROOT) == ROOT && Base(ROOT) == ROOT
    ensures PathOf([]) == ROOT && IsClean(ROOT)
  {
  }
}
