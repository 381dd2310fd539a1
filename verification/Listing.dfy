// cos.go, ScanFiles: reading a listing page by page. Names are ordered
// byte-wise; a page is the next few names after a marker.
module Listing {
  import opened Utf8
  import opened Wrappers

  predicate Less(a: Bytes, b: Bytes) {
    b != [] && (a == [] || a[0] < b[0] || (a[0] == b[0] && Less(a[1..], b[1..])))
  }

  lemma {:induction false} LessTotal(a: Bytes, b: Bytes)
    ensures a == b || Less(a, b) || Less(b, a)
    ensures !(Less(a, b) && Less(b, a)) && !Less(a, a)
  {
    if a != [] && b != [] {
      LessTotal(a[1..], b[1..]);
      assert a == [a[0]] + a[1..] && b == [b[0]] + b[1..];
    }
    if a != [] {
      LessTotal(a[1..], a[1..]);
    }
  }

  // a comes first: it is a proper prefix of b, or smaller where they differ.
  lemma {:induction false} LessIff(a: Bytes, b: Bytes)
    ensures Less(a, b) <==> a < b || exists i :: FirstSmaller(a, b, i)
  {
    if a != [] && b != [] && a[0] == b[0] {
      LessIff(a[1..], b[1..]);
      assert a == [a[0]] + a[1..] && b == [b[0]] + b[1..];
      if i :| FirstSmaller(a[1..], b[1..], i) {
        assert a[..i + 1] == [a[0]] + a[1..][..i] && b[..i + 1] == [b[0]] + b[1..][..i];
        assert FirstSmaller(a, b, i + 1);
      }
      if i :| FirstSmaller(a, b, i) {
        assert a[..i][1..] == a[1..][..i - 1] && b[..i][1..] == b[1..][..i - 1];
        assert FirstSmaller(a[1..], b[1..], i - 1);
      }
    } else if a != [] && b != [] && a[0] < b[0] {
      assert FirstSmaller(a, b, 0);
    }
  }

  ghost predicate FirstSmaller(a: Bytes, b: Bytes, i: int) {
    0 <= i < |a| && i < |b| && a[..i] == b[..i] && a[i] < b[i]
  }

  lemma {:induction false} LessTransitive(a: Bytes, b: Bytes, c: Bytes)
    requires Less(a, b) && Less(b, c)
    ensures Less(a, c)
  {
    if a != [] && a[0] == b[0] && b[0] == c[0] {
      LessTransitive(a[1..], b[1..], c[1..]);
    }
  }

  datatype Page = Page(contents: seq<Bytes>, truncated: bool, nextMarker: Bytes)

  function Matching(names: set<Bytes>, prefix: Bytes): set<Bytes> {
    set n | n in names && prefix <= n
  }

  // What a listing that resumes after marker has still to show.
  function Remaining(names: set<Bytes>, prefix: Bytes, marker: Bytes): set<Bytes> {
    set n | n in Matching(names, prefix) && (marker == [] || Less(marker, n))
  }

  predicate Ascending(s: seq<Bytes>) {
    forall i, j :: 0 <= i < j < |s| ==> Less(s[i], s[j])
  }

  // The listing contract: the first few of the remaining names, in order,
  // and where to go on if that was not all.
  ghost predicate IsPage(names: set<Bytes>, prefix: Bytes, marker: Bytes, page: Page) {
    && Ascending(page.contents)
    && (forall n :: n in page.contents ==> n in Remaining(names, prefix, marker))
    && (!page.truncated ==> forall n :: n in Remaining(names, prefix, marker) ==> n in page.contents)
    && (page.truncated ==>
      && page.contents != [] && page.nextMarker == page.contents[|page.contents| - 1] && page.nextMarker != []
      && forall n :: n in Remaining(names, prefix, marker) ==> (n in page.contents <==> !Less(page.nextMarker, n)))
  }

  method Least(names: set<Bytes>) returns (m: Bytes)
    requires names != {}
    ensures m in names && forall n :: n in names && n != m ==> Less(m, n)
  {
    ghost var some := ElementOf(names);
    m :| m in names;
    var todo := names - {m};
    while todo != {}
      invariant todo <= names && m in names && m !in todo
      invariant forall n :: n in names - todo && n != m ==> Less(m, n)
      decreases todo
    {
      some := ElementOf(todo);
      var n :| n in todo;
      todo := todo - {n};
      LessTotal(m, n);
      if Less(n, m) {
        forall x | x in names - todo && x != n ensures Less(n, x) {
          if x != m {
            LessTransitive(n, m, x);
          }
        }
        m := n;
      }
    }
  }

  // A server that keeps the contract, whatever page size it settles on.
  method GetPage(names: set<Bytes>, prefix: Bytes, marker: Bytes, maxKeys: nat) returns (page: Page)
    requires 0 < maxKeys && [] !in names
    ensures IsPage(names, prefix, marker, page)
    ensures |page.contents| <= maxKeys
  {
    var rest := Remaining(names, prefix, marker);
    var contents: seq<Bytes> := [];
    var size := *;
    if size < 1 || maxKeys < size {
      size := maxKeys;
    }
    while rest != {} && |contents| < size
      invariant |contents| <= size
      invariant rest <= Remaining(names, prefix, marker)
      invariant forall n :: n in Remaining(names, prefix, marker) <==> n in contents || n in rest
      invariant forall n :: n in rest ==> n !in contents
      invariant Ascending(contents)
      invariant forall n, i | n in rest && 0 <= i < |contents| :: Less(contents[i], n)
      decreases rest
    {
      var m := Least(rest);
      rest := rest - {m};
      contents := contents + [m];
    }
    if rest == {} {
      page := Page(contents, false, []);
    } else {
      var last := contents[|contents| - 1];
      assert last in contents;
      forall n | n in contents ensures !Less(last, n) {
        LessTotal(last, n);
      }
      page := Page(contents, true, last);
    }
  }

  lemma PageAdvances(names: set<Bytes>, prefix: Bytes, marker: Bytes, page: Page)
    requires IsPage(names, prefix, marker, page) && page.truncated
    ensures Remaining(names, prefix, page.nextMarker) < Remaining(names, prefix, marker)
    ensures Remaining(names, prefix, marker) - Remaining(names, prefix, page.nextMarker) == set n | n in page.contents
  {
    var next := page.nextMarker;
    assert next in page.contents;
    LessTotal(next, next);
    forall n | n in Remaining(names, prefix, next) ensures n in Remaining(names, prefix, marker) {
      if marker != [] {
        LessTransitive(marker, next, n);
      }
    }
  }

  lemma AscendingConcat(a: seq<Bytes>, b: seq<Bytes>)
    requires Ascending(a) && Ascending(b)
    requires a != [] && b != [] ==> Less(a[|a| - 1], b[0])
    ensures Ascending(a + b)
  {
    var s := a + b;
    forall i, j | 0 <= i < j < |s| ensures Less(s[i], s[j]) {
      if i < |a| <= j {
        if i < |a| - 1 {
          LessTransitive(a[i], a[|a| - 1], b[0]);
        }
        if j > |a| {
          LessTransitive(a[i], b[0], b[j - |a|]);
        }
      }
    }
  }
}
