// backup.go, the part of uploadFiles that decides what to upload and what to
// mark, in any order of its map ranges.
module UploadPlan {
  import opened Wrappers
  import opened ChunkKeys
  import opened Archive

  type ChunksMap = map<Key, bool>

  datatype Task = Task(localPath: Path, key: Key, size: Size)

  datatype Stats = Stats(cnt: nat, uploadSize: int, totalSize: int)

  ghost function SizeOf(chunks: set<Key>): int {
    if chunks == {} then 0 else var k :| k in chunks; k.size + SizeOf(chunks - {k})
  }

  lemma {:induction false} SizeOfWithout(chunks: set<Key>, k: Key)
    requires k in chunks
    ensures SizeOf(chunks) == SizeOf(chunks - {k}) + k.size
  {
    var j :| j in chunks && SizeOf(chunks) == j.size + SizeOf(chunks - {j});
    if j != k {
      SizeOfWithout(chunks - {j}, k);
      SizeOfWithout(chunks - {k}, j);
      assert chunks - {j} - {k} == chunks - {k} - {j};
    }
  }

  lemma SizeOfWith(chunks: set<Key>, k: Key)
    requires k !in chunks
    ensures SizeOf(chunks + {k}) == SizeOf(chunks) + k.size
  {
    SizeOfWithout(chunks + {k}, k);
    assert chunks + {k} - {k} == chunks;
  }

  // chunk.go, buildChunksMap
  method BuildChunksMap(files: Files) returns (cm: ChunksMap)
    ensures cm.Keys == Chunks(files)
    ensures forall k :: k in cm ==> !cm[k]
  {
    cm := map[];
    var todo := files.Keys;
    while todo != {}
      invariant todo <= files.Keys
      invariant cm.Keys == set p | p in files && p !in todo :: KeyOf(files[p])
      invariant forall k :: k in cm ==> !cm[k]
      decreases todo
    {
      ghost var some := ElementOf(todo);
      var p :| p in todo;
      todo := todo - {p};
      cm := cm[KeyOf(files[p]) := false];
    }
  }

  predicate Uploads(task: Task, files: Files) {
    task.size == task.key.size && task.localPath in files && KeyOf(files[task.localPath]) == task.key
  }

  // One task per chunk, whatever number of files share it.
  ghost predicate OneTaskEach(tasks: seq<Task>, files: Files, chunks: set<Key>) {
    && (forall i, j :: 0 <= i < j < |tasks| ==> tasks[i].key != tasks[j].key)
    && (forall i :: 0 <= i < |tasks| ==> tasks[i].key in chunks && Uploads(tasks[i], files))
    && (forall k :: k in chunks ==> exists i :: 0 <= i < |tasks| && tasks[i].key == k)
  }

  ghost predicate Counted(stats: Stats, tasks: seq<Task>, chunks: set<Key>, present: set<Key>) {
    && stats.cnt == |tasks|
    && stats.uploadSize == SizeOf(chunks - present)
    && stats.totalSize == SizeOf(chunks)
  }

  lemma CountOne(stats: Stats, tasks: seq<Task>, chunks: set<Key>, present: set<Key>, task: Task)
    requires Counted(stats, tasks, chunks, present) && task.key !in chunks && task.size == task.key.size
    ensures task.key in present ==>
      Counted(stats.(totalSize := stats.totalSize + task.size), tasks, chunks + {task.key}, present)
    ensures task.key !in present ==>
      Counted(Stats(stats.cnt + 1, stats.uploadSize + task.size, stats.totalSize + task.size), tasks + [task],
        chunks + {task.key}, present)
  {
    SizeOfWith(chunks, task.key);
    if task.key in present {
      assert chunks + {task.key} - present == chunks - present;
    } else {
      assert chunks + {task.key} - present == (chunks - present) + {task.key};
      SizeOfWith(chunks - present, task.key);
    }
  }

  // The files seen so far refer to the chunks done.
  ghost predicate Planned(files: Files, present: set<Key>, marks: Marks, done: set<Key>,
                          seen: ChunksMap, used: ChunksMap, tasks: seq<Task>, kept: Marks, stats: Stats) {
    && (forall k :: k in seen ==> (seen[k] <==> k in done))
    && used.Keys == present && (forall k :: k in used ==> (used[k] <==> k in done))
    && kept == (map k | k in marks && k !in done :: marks[k])
    && OneTaskEach(tasks, files, done - present)
    && Counted(stats, tasks, done, present)
  }

  // The loop over the local files.
  method PlanUploads(files: Files, localChunks: ChunksMap, remoteChunks: ChunksMap, marks: Marks)
    returns (tasks: seq<Task>, used: ChunksMap, kept: Marks, stats: Stats)
    requires forall k :: k in localChunks ==> !localChunks[k]
    requires localChunks.Keys == Chunks(files)
    requires forall k :: k in remoteChunks ==> !remoteChunks[k]
    ensures OneTaskEach(tasks, files, Chunks(files) - remoteChunks.Keys)
    ensures used.Keys == remoteChunks.Keys && forall k :: k in used ==> (used[k] <==> k in Chunks(files))
    ensures kept == map k | k in marks && k !in Chunks(files) :: marks[k]
    ensures Counted(stats, tasks, Chunks(files), remoteChunks.Keys)
  {
    hide Planned, OneTaskEach, Counted;
    var seen := localChunks;
    tasks, used, kept, stats := [], remoteChunks, marks, Stats(0, 0, 0);
    var todo := files.Keys;
    ghost var done: set<Key> := {};
    PlanStarts(files, remoteChunks, marks, seen);
    while todo != {}
      invariant todo <= files.Keys
      invariant done == set p | p in files && p !in todo :: KeyOf(files[p])
      invariant seen.Keys == Chunks(files)
      invariant Planned(files, remoteChunks.Keys, marks, done, seen, used, tasks, kept, stats)
      decreases todo
    {
      ghost var some := ElementOf(todo);
      var fp :| fp in todo;
      todo := todo - {fp};
      var fi := files[fp];
      var h := KeyOf(fi);
      ghost var before := done;
      done := done + {h};
      assert done == set p | p in files && p !in todo :: KeyOf(files[p]);
      assert h in Chunks(files);
      PlanOne(files, remoteChunks.Keys, marks, before, seen, used, tasks, kept, stats, Task(fp, h, fi.size));
      if seen[h] {
        continue;
      }
      stats := stats.(totalSize := stats.totalSize + fi.size);
      seen := seen[h := true];
      if h in used {
        used := used[h := true];
      } else {
        stats := stats.(cnt := stats.cnt + 1, uploadSize := stats.uploadSize + fi.size);
        tasks := tasks + [Task(fp, h, fi.size)];
      }
      if h in kept {
        kept := kept - {h};
      }
    }
    assert done == Chunks(files);
    PlanEnds(files, remoteChunks.Keys, marks, done, seen, used, tasks, kept, stats);
  }

  lemma PlanStarts(files: Files, remoteChunks: ChunksMap, marks: Marks, seen: ChunksMap)
    requires forall k :: k in seen ==> !seen[k]
    requires forall k :: k in remoteChunks ==> !remoteChunks[k]
    ensures Planned(files, remoteChunks.Keys, marks, {}, seen, remoteChunks, [], marks, Stats(0, 0, 0))
  {
  }

  lemma PlanEnds(files: Files, present: set<Key>, marks: Marks, done: set<Key>,
                 seen: ChunksMap, used: ChunksMap, tasks: seq<Task>, kept: Marks, stats: Stats)
    requires Planned(files, present, marks, done, seen, used, tasks, kept, stats)
    ensures OneTaskEach(tasks, files, done - present) && Counted(stats, tasks, done, present)
    ensures used.Keys == present && forall k :: k in used ==> (used[k] <==> k in done)
    ensures kept == map k | k in marks && k !in done :: marks[k]
  {
  }

  // One turn of that loop, for the file of the given task.
  lemma PlanOne(files: Files, present: set<Key>, marks: Marks, done: set<Key>,
                seen: ChunksMap, used: ChunksMap, tasks: seq<Task>, kept: Marks, stats: Stats, task: Task)
    requires Planned(files, present, marks, done, seen, used, tasks, kept, stats)
    requires Uploads(task, files) && task.key in seen
    ensures var h := task.key;
      var kept' := if h in kept then kept - {h} else kept;
      if seen[h] then Planned(files, present, marks, done + {h}, seen, used, tasks, kept, stats)
      else if h in used then
        Planned(files, present, marks, done + {h}, seen[h := true], used[h := true], tasks, kept',
                Stats(stats.cnt, stats.uploadSize, stats.totalSize + task.size))
      else
        Planned(files, present, marks, done + {h}, seen[h := true], used, tasks + [task], kept',
                Stats(stats.cnt + 1, stats.uploadSize + task.size, stats.totalSize + task.size))
  {
    var h := task.key;
    hide SizeOf, OneTaskEach, Counted;
    if seen[h] {
      assert done + {h} == done;
    } else {
      CountOne(stats, tasks, done, present, task);
      if h in used {
        assert done + {h} - present == done - present;
      } else {
        assert done + {h} - present == done - present + {h};
        AddTask(tasks, files, done - present, task);
      }
    }
  }

  lemma AddTask(tasks: seq<Task>, files: Files, chunks: set<Key>, task: Task)
    requires OneTaskEach(tasks, files, chunks) && task.key !in chunks
    requires Uploads(task, files)
    ensures OneTaskEach(tasks + [task], files, chunks + {task.key})
  {
    var r := tasks + [task];
    forall k | k in chunks + {task.key} ensures exists i :: 0 <= i < |r| && r[i].key == k {
      if k == task.key {
        assert r[|tasks|].key == k;
      } else {
        var i :| 0 <= i < |tasks| && tasks[i].key == k;
        assert r[i].key == k;
      }
    }
  }
}
