// index.go, getLatestIndex: the names index versions are stored under, how
// they are ranked, and what the sweep makes of other names in the listing.
module VersionNames {
  import opened Utf8
  import opened ChunkKeys
  import opened Protocol
  import opened VersionList

  const DOT: byte := 0x2E

  function VersionName(index: Bytes, t: int64): Bytes {
    index + [DOT] + FormatInt(t)
  }

  // strconv.ParseInt(s, 10, 64) with its error ignored: 0 for a syntax error,
  // the nearest int64 for a range error.
  function ParsedOrNearest(s: Bytes): int64 {
    var signed := s != [] && (s[0] == PLUS || s[0] == DASH);
    var digits := if signed then s[1..] else s;
    if digits == [] || !AllDigits(digits) then 0
    else if ParseInt(s).Some? then ParseInt(s).value
    else if signed && s[0] == DASH then -TWO_63 else TWO_63 - 1
  }

  function Rank(index: Bytes, name: Bytes): int64 {
    var prefix := index + [DOT];
    ParsedOrNearest(if prefix <= name then name[|prefix|..] else name)
  }

  lemma NameRoundTrip(index: Bytes, t: int64)
    requires t >= 0
    ensures Rank(index, VersionName(index, t)) == t
  {
    var prefix := index + [DOT];
    assert VersionName(index, t)[|prefix|..] == FormatInt(t);
    SizeRoundTrip(t);
    assert IsDigit(FormatNat(t)[0]);
  }

  // Digits rank as their value, or as the largest int64, with or without a plus
  // sign; with a minus sign as the opposite, or as the smallest; anything that
  // is no number ranks as 0.
  lemma RankOfText(index: Bytes, s: Bytes)
    ensures var r := Rank(index, index + [0x2E] + s);
      && (s != [] && AllDigits(s) ==>
        r == if NatValue(s) < 0x8000_0000_0000_0000 then NatValue(s) else 0x7FFF_FFFF_FFFF_FFFF)
      && (|s| > 1 && s[0] == 0x2B && AllDigits(s[1..]) ==>
        r == if NatValue(s[1..]) < 0x8000_0000_0000_0000 then NatValue(s[1..]) else 0x7FFF_FFFF_FFFF_FFFF)
      && (|s| > 1 && s[0] == 0x2D && AllDigits(s[1..]) ==>
        r == if NatValue(s[1..]) <= 0x8000_0000_0000_0000 then 0 - NatValue(s[1..]) else -0x8000_0000_0000_0000)
      && (s == [] || (!AllDigits(s) && (s[0] !in {0x2B, 0x2D} || s[1..] == [] || !AllDigits(s[1..]))) ==> r == 0)
  {
    var prefix := index + [DOT];
    assert (prefix + s)[|prefix|..] == s;
  }

  lemma NamesInjective(index: Bytes, a: int64, b: int64)
    requires a >= 0 && b >= 0 && VersionName(index, a) == VersionName(index, b)
    ensures a == b
  {
    NameRoundTrip(index, a);
    NameRoundTrip(index, b);
  }

  // Not every name that ranks is a version's: a plus sign is read over.
  lemma RankedButNoVersion(index: Bytes)
    ensures var name := index + [DOT, PLUS, 0x37];
      Rank(index, name) == 7 && forall t: int64 :: t >= 0 ==> name != VersionName(index, t)
  {
    var name := index + [DOT, PLUS, 0x37];
    var prefix := index + [DOT];
    assert prefix <= name && name[|prefix|..] == [PLUS, 0x37] && [PLUS, 0x37][1..] == [0x37];
    assert NatValue([0x37]) == 7;
    forall t: int64 | t >= 0 ensures name != VersionName(index, t) {
      var digits := FormatInt(t);
      assert VersionName(index, t)[|prefix|..] == digits;
      assert IsDigit(digits[0]);
    }
  }

  // ---- the sweep over names ----

  // A listing sorted as the code sorts it: by descending rank, names of the
  // same rank in any order.
  ghost predicate Sorted(index: Bytes, list: seq<Bytes>) {
    && (forall i, j :: 0 <= i < j < |list| ==> list[i] != list[j])
    && (forall i, j :: 0 <= i < j < |list| ==> Rank(index, list[j]) <= Rank(index, list[i]))
  }

  ghost predicate IsSwept(list: seq<Bytes>, name: Bytes) {
    exists i :: KEPT_VERSIONS <= i < |list| && list[i] == name
  }

  ghost function Above(index: Bytes, list: seq<Bytes>, name: Bytes): set<Bytes> {
    set n | n in list && Rank(index, n) > Rank(index, name)
  }

  ghost function NotBelow(index: Bytes, list: seq<Bytes>, name: Bytes): set<Bytes> {
    set n | n in list && n != name && Rank(index, n) >= Rank(index, name)
  }

  lemma {:induction false} NamesCount(list: seq<Bytes>)
    requires forall i, j :: 0 <= i < j < |list| ==> list[i] != list[j]
    ensures |set n | n in list| == |list|
  {
    if list != [] {
      NamesCount(list[1..]);
      assert list[0] !in list[1..];
      assert (set n | n in list) == (set n | n in list[1..]) + {list[0]};
    }
  }

  // The place of a name: behind all that outrank it, before all it outranks.
  lemma PlaceBounds(index: Bytes, list: seq<Bytes>, i: nat)
    requires Sorted(index, list) && i < |list|
    ensures |Above(index, list, list[i])| <= i <= |NotBelow(index, list, list[i])|
  {
    hide Rank;
    var before := list[..i];
    var names := set n | n in before;
    NamesCount(before);
    forall n | n in Above(index, list, list[i]) ensures n in names {
      var j :| 0 <= j < |list| && list[j] == n;
      assert j < i && before[j] == n;
    }
    forall n | n in names ensures n in NotBelow(index, list, list[i]) {
      var j :| 0 <= j < i && before[j] == n;
      assert list[j] == n;
    }
    SubsetSize(Above(index, list, list[i]), names);
    SubsetSize(names, NotBelow(index, list, list[i]));
  }

  // Version or not, a name is deleted if 30 others outrank it, and only if 30
  // others are not outranked by it; between the two the order of ties decides.
  lemma SweptIfOutranked(index: Bytes, list: seq<Bytes>, name: Bytes)
    requires Sorted(index, list) && name in list
    ensures |Above(index, list, name)| >= KEPT_VERSIONS ==> IsSwept(list, name)
    ensures IsSwept(list, name) ==> |NotBelow(index, list, name)| >= KEPT_VERSIONS
  {
    hide Rank, Above, NotBelow;
    var i :| 0 <= i < |list| && list[i] == name;
    PlaceBounds(index, list, i);
  }

  // Every name with a positive rank is a version's.
  ghost predicate OnlyVersionsRank(index: Bytes, list: seq<Bytes>) {
    forall n :: n in list && Rank(index, n) > 0 ==> n == VersionName(index, Rank(index, n))
  }

  // Then strays cost no version its place: one is deleted exactly if 30 newer
  // versions are listed, as if the strays were not there.
  lemma StraysCostNothing(index: Bytes, list: seq<Bytes>, t: int64)
    requires Sorted(index, list) && OnlyVersionsRank(index, list)
    requires t > 0 && VersionName(index, t) in list
    ensures IsSwept(list, VersionName(index, t)) <==>
      |set n | n in list && Rank(index, n) > t| >= KEPT_VERSIONS
  {
    hide Rank, VersionName;
    NameRoundTrip(index, t);
    var name := VersionName(index, t);
    SweptIfOutranked(index, list, name);
    assert Above(index, list, name) == set n | n in list && Rank(index, n) > t;
    forall n | n in NotBelow(index, list, name) ensures n in Above(index, list, name) {
      assert Rank(index, n) == t ==> n == VersionName(index, t);
    }
    SubsetSize(NotBelow(index, list, name), Above(index, list, name));
  }
}
