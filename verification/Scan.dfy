// cos.go, ScanFiles, and chunk.go, scanRemoteChunksMap: which chunks are
// stored, as far as a listing can tell.
module Scans {
  import opened Utf8
  import opened Wrappers
  import opened ChunkKeys
  import opened Listing
  import opened Remotes
  import opened UploadPlan

  const MAX_KEYS := 1000

  // Every name under the prefix, once, in order; visited stands for the calls
  // of the callback.
  method ScanFiles(remote: Remote, prefix: Bytes) returns (r: Result<seq<Bytes>, ()>)
    modifies remote`faults
    ensures r.Ok? ==> Ascending(r.value)
    ensures r.Ok? ==> forall n :: n in r.value <==> n in Matching(ChunkNames(remote.store.Keys, remote.prefix), prefix)
    ensures remote.faults == if r.Ok? then old(remote.faults) else old(remote.faults) + 1
  {
    ghost var names := ChunkNames(remote.store.Keys, remote.prefix);
    var visited, marker: Bytes := [], [];
    while true
      invariant Ascending(visited) && remote.faults == old(remote.faults)
      invariant visited != [] ==> marker == visited[|visited| - 1] && marker != []
      invariant visited == [] ==> marker == []
      invariant forall n :: n in visited <==> n in Matching(names, prefix) - Remaining(names, prefix, marker)
      decreases Remaining(names, prefix, marker)
    {
      hide IsPage, ChunkNames;
      var got := remote.GetPage(prefix, marker, MAX_KEYS);
      if got.Err? {
        return Err(());
      }
      var page := got.value;
      PageFollows(names, prefix, marker, page, visited);
      visited := visited + page.contents;
      if !page.truncated {
        return Ok(visited);
      }
      marker := page.nextMarker;
    }
  }

  lemma PageFollows(names: set<Bytes>, prefix: Bytes, marker: Bytes, page: Page, visited: seq<Bytes>)
    requires IsPage(names, prefix, marker, page) && Ascending(visited)
    requires visited != [] ==> marker == visited[|visited| - 1] && marker != []
    requires forall n :: n in visited <==> n in Matching(names, prefix) - Remaining(names, prefix, marker)
    ensures Ascending(visited + page.contents)
    ensures !page.truncated ==> forall n :: n in visited + page.contents <==> n in Matching(names, prefix)
    ensures page.truncated ==>
      && Remaining(names, prefix, page.nextMarker) < Remaining(names, prefix, marker)
      && (forall n :: n in visited + page.contents <==>
        n in Matching(names, prefix) - Remaining(names, prefix, page.nextMarker))
      && page.contents != [] && page.nextMarker == page.contents[|page.contents| - 1] && page.nextMarker != []
  {
    if visited != [] && page.contents != [] {
      assert page.contents[0] in page.contents;
    }
    AscendingConcat(visited, page.contents);
    if page.truncated {
      PageAdvances(names, prefix, marker, page);
    }
  }

  // The listing, read back as chunk keys, is exactly the store.
  method ScanRemoteChunksMap(remote: Remote) returns (r: Result<ChunksMap, ()>)
    modifies remote`faults
    ensures r.Ok? ==> r.value.Keys == remote.store.Keys && forall k :: k in r.value ==> !r.value[k]
    ensures remote.faults == if r.Ok? then old(remote.faults) else old(remote.faults) + 1
  {
    hide Less, ParseKey, ChunkPath;
    var prefix := remote.prefix;
    var got := ScanFiles(remote, prefix);
    if got.Err? {
      return Err(());
    }
    var list := got.value;
    NamesMatch(remote.store.Keys, prefix);
    var cm: ChunksMap := map[];
    assert forall j :: 0 <= j < |list| ==> list[j] in list;
    for i := 0 to |list|
      invariant forall k :: k in cm ==> !cm[k] && k in remote.store
      invariant forall j :: 0 <= j < i ==> prefix <= list[j] && ParseKey(list[j][|prefix|..]) in cm
    {
      var k := ParseKey(list[i][|prefix|..]);
      cm := cm[k := false];
    }
    forall k | k in remote.store ensures k in cm {
      KeyCodecsAgree(k);
      var name := prefix + ChunkPath(k);
      assert name in list;
      var j :| 0 <= j < |list| && list[j] == name;
      assert name[|prefix|..] == ChunkPath(k);
    }
    return Ok(cm);
  }

  lemma NamesMatch(stored: set<Key>, prefix: Bytes)
    ensures Matching(ChunkNames(stored, prefix), prefix) == ChunkNames(stored, prefix)
    ensures forall n :: n in ChunkNames(stored, prefix) ==> prefix <= n && ParseKey(n[|prefix|..]) in stored
  {
    hide Less, ParseKey, ChunkPath;
    forall n | n in ChunkNames(stored, prefix) ensures prefix <= n && ParseKey(n[|prefix|..]) in stored {
      var k :| k in stored && prefix + ChunkPath(k) == n;
      assert n[|prefix|..] == ChunkPath(k);
      KeyCodecsAgree(k);
    }
  }
}
