# A verified model of COS Archive

COS Archive backs a file system up into an object store. File contents become
*chunks*, named by size and hash and stored once; an *index* lists files,
directories and symbolic links, and carries a *mark* for every chunk no file
uses any more: the time after which it may be deleted. A run of `backup`
uploads missing chunks, deletes those whose mark has passed, and only then
publishes the new index; `fsck` reconciles the newest index with the chunks
that are stored. This project models that protocol, the code around it and the
codecs it rests on, and proves

* over every run, with remote calls failing or the process dying anywhere: the
  newest published index is complete, every superseded one stays complete for
  seven days after the start of the backup that superseded it, the published
  marks and files account for exactly what is stored, and what nobody wants any
  more is eventually gone;
* that the methods, written as the program's loops over maps, caches and remote
  calls, move only by the steps of that protocol, and succeed where no call
  fails;
* that after any history of backups and fscks a download and a link into an
  empty directory give back the newest index, and after a backup every
  directory, every link and every file with the bytes that were read;
* that paths, chunk keys and whole indexes survive being written down;
* that the mounted tree and the browser's directory map show exactly the index.

## How it is laid out

| files | what they hold |
|---|---|
| `Protocol.dfy` | the archive as a state machine: store, versions, clock, history, the running process; one step per remote effect |
| `ProtocolSafety.dfy`, `ProtocolAccounts.dfy` | what holds in every run; exact accounting and reclamation |
| `ProtocolTimes.dfy` | grace, marks and minimum storage over whole runs, in seconds and without the machine's bookkeeping |
| `ProtocolRepair.dfy`, `ProtocolLimits.dfy` | missing chunks and what fsck does about them; runs at the edge |
| `Remote.dfy`, `Listing.dfy`, `Scan.dfy` | the bucket and the clock as an object, with a ghost trace that is a behaviour of the machine; listing it page by page |
| `Index.dfy`, `DeletionPass.dfy`, `VersionList.dfy`, `VersionNames.dfy` | loading, publishing, the local cache, version retention and names, the deletion pass |
| `Backup.dfy`, `UploadPlan.dfy`, `Fsck.dfy` | the two runs that publish |
| `Walk.dfy`, `Scanner.dfy`, `Verify.dfy` | what a walk of the local tree meets; scanning it, hash reuse; checking a tree against the archive |
| `Target.dfy`, `Link.dfy`, `Restore.dfy` | the restore directory, `download` and `link` |
| `DirModes.dfy`, `Escape.dfy` | what the order of the links' loops decides: directory modes, and paths that lead through a restored link |
| `ScanShape.dfy`, `History.dfy` | which scans can be laid out again, and the way from a backup, or from any history, to the restored bytes |
| `Utf8.dfy`, `Rfc3629.dfy`, `PathCodec.dfy`, `KeyMaps.dfy`, `ChunkKeys.dfy`, `IndexDoc.dfy` | UTF-8 at byte level and against its standard, quoted paths, the chunk-key codecs, the saved index |
| `Paths.dfy`, `MountView.dfy`, `MountTree.dfy`, `Inodes.dfy`, `DirMap.dfy` | clean paths, the mount tree on the heap, its inodes, the browser's directory map |
| `Archive.dfy`, `Wrappers.dfy` | shared datatypes |

Loops over Go maps pick any remaining element, so what is proved holds for
every iteration order. Any remote call and any operation on the local disk may
fail, and a call that changes the bucket may fail before or after it took
effect. Each failure raises the ghost counter `faults` of the bucket, the
working directory or the restore directory; contracts that say what happens
where no call fails compare that counter before and after. A cached index that
cannot be read is no failure: it is downloaded instead. Integers the program
keeps in 64 bits are `int64` where their width matters (chunk sizes,
`parseInt64FromBytes`).

## What is taken for granted

* One client at a time (the lock file, main.go:89-101); nobody else deletes or
  adds objects. Every object under the chunk prefix is named `chunkPath(k)` for
  a key of size at least 0, the prefix ends in a slash, and index names do not
  fall under it.
* The clock never runs backwards and is not behind any published version
  number; accounting also wants it to be after 1970.
* Two facts about a run that the code does not check, collected in
  `ProtocolSafety.Run`: every deletion pass begins within seven days of its
  backup (the grace is counted from backup.go:51, the pass reads the clock again
  at index.go:272), and no backup publishes over a file that vanished between
  scan and upload (backup.go:40-42 skips it silently); backups that fail may
  have met any number of those. `CompleteIffNothingVanished` and
  `PassReachesPublishedIff` say exactly what each is worth, `ProtocolLimits`
  gives runs in which the published index loses a chunk without them, and
  `HoleStays` and `FsckRepairs` say how long. A *trusted run* keeps to both, and
  starts from a bucket without an index or with a complete one.
* SHA-1 of a saved index is injective (a digest is modelled as the document it
  was computed from); `chunkHash` is an unknown function of a file's bytes. That
  equal keys mean equal bytes is assumed only where it is written as a premise
  (`KeysTellApart`).
* A day is 86400 seconds and a year 31556952; the JSON library is a faithful,
  deterministic encoding of string-keyed maps; hash text in a saved index is at
  most 40 digits (longer text makes `hex.Decode` write past the hash).
* `filepath.WalkDir` and `path.Join` give clean absolute paths; two walks that
  meet the same path find the same thing there, and a file's bytes stay the same
  from the walk to its upload (`Scanner.Disk` is one snapshot per run).
* The process runs with umask 0, so that `os.MkdirAll` gives exactly the mode it
  is passed.
* In `Remote` a version is the timestamp in its object's name; two versions
  published within one second share a name, and the later one replaces the
  earlier. Names, and objects that are listed with the versions but are none,
  are the subject of `VersionNames`.

## Where the code and its documentation differ

* `link` is said to preserve mode and mtime (README.en.md:30). For files: those
  with the same chunk become hard links of one inode, so the last one linked
  decides for all; `AttributesKeptIff` gives the exact condition. For
  directories: `os.MkdirAll` makes what is missing above a directory with that
  directory's mode and changes nothing that is there, so the order of a range
  over a map decides; recorded modes come back in every order exactly if nested
  indexed directories agree on them (`DirModesKeptIff`; `InnerModeSpreads` for
  0755 above 0700). A directory's mtime is not recorded.
* A run that ends well is taken to have published its index. The digest of the
  temporary file is empty where it cannot be read back (index.go:60-71), and so
  is that of "no version yet": such a run reports success and leaves another
  index newest, or none, exactly if the newest version has no digest either and
  is not this index (`UploadRemote`, `UnpublishedIff`; `FirstUnreadableIsLost`
  for a first backup, `SecondUnreadableIsLost` for two in a row).
* `link` is said to rebuild the tree in `target/restore` (README.en.md:107). A
  path that leads through a symbolic link restored before it is resolved by the
  operating system and may end outside; `EscapeIff` says exactly when that can
  happen in an empty target, `PathThroughLinkEscapes` shows the smallest case,
  and an index that can be laid out is never such (`ShapedStaysInside`).
* `link` makes only indexed directories, so a configured path that is itself a
  file or link can be rebuilt exactly if its directory is recorded, or lies
  above one that is, and nothing but directories lies above any configured path
  (`ShapedIffFit`; `LoneFileDoesNotFit` for a file on its own).
* The latest 30 versions are said to be kept (README.en.md:27). The sweep keeps
  exactly those, but it runs before the publish: where no delete fails, 31 are
  stored after a run exactly if 30 were before, the index's digest is not the
  newest one's, and none of them carries the current second (`UploadRemote`,
  `ThirtyOneIff`; `ThirtyOneVersionsStored` is such a run). A version the sweep
  fails to delete stays.

## Model

| member | source | states |
|---|---|---|
| ProtocolSafety.PublishedAlwaysSafe | backup.go:50-192 | in every state of every trusted run, wherever calls failed, processes died or failing backups lost files, every chunk of the newest published index is stored and none of them is marked |
| ProtocolSafety.GraceAlwaysKept | backup.go:51-121 | every version ever published is complete until 7 days after the start of the backup that superseded it, over any sequence of backups and fscks |
| ProtocolTimes.NewestStaysComplete | backup.go:51-121 | whatever index is the newest at some point of a trusted run has all its chunks stored until a backup publishes, and from then on until 604800 seconds after that backup began; said without the history the machine keeps |
| ProtocolSafety.StepKeeps | fsck.go:20-62 | each single effect of a backup or fsck keeps the invariant that ties past versions, current files, marks and clock together; a vanished file matters at a publish alone |
| ProtocolSafety.PassSparesLiveChunks | backup.go:115-121 | whatever leaves the store leaves in a deletion pass, and is a chunk of neither the loaded, the published nor the new index |
| ProtocolSafety.OverdueIsUnprotected | index.go:280-284 | a mark that has passed belongs to no chunk of the published index, of the index being built, or of any version still in its grace window |
| ProtocolSafety.PlanProtects | backup.go:58-64 | clamping and re-marking carry every protection a chunk had in the old index over to the new one, up to the new grace |
| ProtocolSafety.ReconcileKeeps | fsck.go:29-58 | on a sound archive reconciliation drops no file and no mark that still protects a chunk |
| ProtocolSafety.EmptyStart | backup.go:177-183 | a bucket without an index, whatever stray chunks it holds, is a safe place to start from |
| ProtocolSafety.CompleteIffNothingVanished | backup.go:38-43 | at the end of any trusted run, a backup that publishes is complete if and only if no file vanished under it between scan and upload |
| ProtocolSafety.PassReachesPublishedIff | index.go:271-312 | from any trusted run whose next step begins a deletion pass, some way on within that pass leaves the published index incomplete if and only if the pass begins over 7 days after its backup and the backup drops a chunk past its minimum storage |
| ProtocolLimits.LatePassLosesPublishedChunk | backup.go:51 | a run in which a backup reaches its pass on the eighth day and deletes a chunk the published index still lists |
| ProtocolLimits.VanishedFilePublishesHole | backup.go:40-42 | a run in which a file that vanished before its upload leaves the published index with a chunk that was never stored |
| ProtocolLimits.ThirtyOneVersionsStored | index.go:166-190 | a run that starts with 30 versions, none of them for the sweep to take, and ends with 31 |
| ProtocolRepair.HoleStays | backup.go:80-89 | a published chunk that is missing stays missing however many backups index its file again, until a fsck publishes |
| ProtocolRepair.FsckRepairs | fsck.go:29-60 | from a fsck that publishes, over any archive with marks apart from files, the published index is complete in every later state of a trusted run |
| ProtocolRepair.HoleRepaired | fsck.go:29-39 | the missing chunk leaves the index with the fsck, and is stored again once a later backup publishes a file with it |
| ProtocolRepair.Forget | backup.go:50-192 | what happens in a run does not depend on which versions were published before it |
| ProtocolAccounts.FsckMakesExact | fsck.go:24-62 | after any fsck that publishes, whatever it started from, the stored chunks are the file chunks and the marked chunks; a partition, if the run began with no chunk both in use and marked |
| ProtocolAccounts.DisjointAlways | fsck.go:29-58 | once no chunk is both in use and marked, that stays so over every run, whatever vanishes, comes late or fails |
| ProtocolAccounts.BackupKeepsExact | backup.go:58-121 | a completed backup of an exactly accounted archive leaves one, its file chunks and marked chunks disjoint |
| ProtocolAccounts.ReconciledAccounts | fsck.go:30-58 | any index, reconciled with any listing, accounts for exactly the listed chunks |
| ProtocolAccounts.MarksCapped | backup.go:59-64 | after a completed backup every mark is at or after its pass and at most three years ahead, fsck's ten years included |
| ProtocolTimes.MarkAfterBackup | backup.go:58-121 | the mark of every chunk after a published backup: none where the new index uses it, start plus 604800 seconds where only the old one did, else the mark it had up to 94670856 seconds ahead and start plus 604800 beyond, unless the time had come before the pass |
| ProtocolTimes.MarkOfStray | fsck.go:52-58 | a stored chunk nothing refers to gets a mark 315569520 seconds after the listing was reconciled |
| ProtocolTimes.GoesInItsTime | index.go:280-312 | in any run a chunk leaves the store only after its mark, and at least 15552000 seconds after it was last modified, where that is known |
| ProtocolTimes.SweptHasThirtyNewer | index.go:220-222 | a version that is swept has 30 newer ones beside it |
| ProtocolAccounts.NeverMarkedLater | backup.go:115-120 | while nobody refers to a marked chunk again, no backup or fsck pushes its mark beyond the later of that mark and the end of its minimum storage |
| ProtocolAccounts.GoneAfterDuePass | index.go:303-312 | the first completed backup whose pass runs after that time leaves neither the chunk nor its mark |
| ProtocolAccounts.GoneAfterDueFsck | fsck.go:20-62 | so does the first published fsck whose pass runs after it, if and only if its pass did not fail on the chunk, that is, did not leave it stored with its mark overdue when the listing was reconciled |
| Remotes.AlwaysSafe | backup.go:171-192 | every state a client of the modelled bucket passes through in a trusted run is safe in the two senses above |
| Remotes.Remote.Clock | index.go:272 | reading the clock is a tick of the protocol and never goes back |
| Remotes.Remote.Head | cos.go:74-83 | a header exists exactly for a stored chunk; an error says nothing |
| Remotes.Remote.PutChunk | cos.go:48-71 | an upload stores the given bytes under the key, or finds the file gone, or fails with or without having stored them; nothing else changes |
| Remotes.Remote.DeleteChunk | cos.go:86-89 | a delete that succeeds removes chunk and mark in one protocol step; one that fails may still have removed the chunk |
| Remotes.Remote.PutVersion | index.go:179-190 | publishing closes the grace of the open versions and adds the new one under its digest, an empty one included, or fails with or without having done so |
| Remotes.Remote.DeleteVersion | index.go:222 | only a version 30 others outrank is ever deleted, and nothing else changes |
| Listing.GetPage | cos.go:98-112 | the listing contract: the next names after the marker in order, any page size up to the limit, left untruncated only if all have been shown |
| Listing.PageAdvances | cos.go:105-112 | the names beyond the marker strictly shrink, by exactly the page just shown, so paging terminates |
| Listing.LessIff | cos.go:98-112 | names are in byte order: a proper prefix first, else the smaller at the first difference |
| Scans.ScanFiles | cos.go:92-115 | a scan calls back once for every name under the prefix, in order, and for no other |
| Scans.ScanRemoteChunksMap | chunk.go:26-38 | the listing read back as chunk keys is exactly the set of stored chunks |
| Indexes.GetLatestIndex | index.go:201-234 | returns the newest timestamp; the sweep removes only versions outranked by 30 others, and where no call fails exactly the 30 newest are left |
| Indexes.DeleteFrom | index.go:220-226 | of the sorted list the first 30 stay, and where no delete fails nothing else |
| VersionList.SortDescending | index.go:214-219 | the same timestamps, newest first |
| VersionList.SweepKeepsNewest | index.go:220-233 | a sweep never changes what the newest version is or holds |
| VersionList.TailIsOutranked | index.go:220-221 | every entry after the thirtieth is outranked by 30 stored versions |
| VersionList.NewestThirtyIff | index.go:220-226 | after a sweep in which no delete failed a version is there exactly if it has fewer than 30 newer, that is, if no 30 others outrank it |
| VersionList.ThirtyOneIff | index.go:166-193 | after a run in which no delete failed more than 30 versions are stored exactly if there were 30 before, the index was put, and none of them carries the current second |
| VersionNames.NameRoundTrip | index.go:186 | the timestamp in a version's name is the one it is ranked by |
| VersionNames.RankOfText | index.go:214-219 | after the prefix, digits rank as their value or the largest 64-bit one, with a minus sign as its opposite or the smallest, anything else as 0 |
| VersionNames.NamesInjective | index.go:186 | two versions with the same name have the same timestamp |
| VersionNames.SweptIfOutranked | index.go:214-226 | version or not, a listed name is deleted if 30 others outrank it, and only if 30 others are not outranked by it |
| VersionNames.StraysCostNothing | index.go:214-226 | where only versions rank above 0, strays never cost a version its place |
| VersionNames.RankedButNoVersion | index.go:216-217 | a name that is no version's and is ranked like one |
| Indexes.Index.Save | index.go:93-113 | writes the document of this index, every path and target quoted |
| Indexes.Index.Load | index.go:74-88 | succeeds exactly if every hash and key in the document can be parsed, and then reads an index the document stands for |
| Indexes.Index.LoadRemote | index.go:237-268 | on the hash-match branch and on the download branch alike the loaded index is the newest published one; where no call fails it succeeds unless there is none |
| Indexes.WorkDir.HashTemporary | index.go:60-71 | the digest of the file as it was written, or none, which counts as a failed operation |
| Indexes.Index.UploadRemote | index.go:144-199 | where no call fails it succeeds and publishes; success means the cache holds this index, its digest is the newest one, and it is the newest index if and only if the temporary file or the newest version before had a digest, or it was the newest already; the versions are those the sweep left, with this one if the digests differed; failure leaves the newest as it was or already this one; no chunk is touched; and when 31 versions are left |
| Indexes.Index.PutIfChanged | index.go:166-193 | equal digests that are not empty mean the newest version already is this index; unequal ones that it becomes so; equal empty ones change nothing, whatever the newest is; the versions are those the sweep left, with this one if it was put |
| Indexes.UnpublishedIff | index.go:166-193 | an upload that succeeds leaves another index newest, or none, if and only if neither the temporary file nor the newest version has a digest and that version is not this index |
| Indexes.FirstUnreadableIsLost | index.go:60-71 | a first backup whose temporary file cannot be read back ends well with no version stored |
| Indexes.SecondUnreadableIsLost | index.go:166-193 | of two such uploads in a row, over a version with a digest, the first is published and the second, of another index, is lost |
| Indexes.Index.DeleteOutdatedChunks | index.go:271-316 | where no call fails it succeeds, leaving exactly the marks and chunks the pass specification gives; with errors it deletes only what was due, drops a mark only with its chunk and only raises marks |
| Indexes.Index.Expire | index.go:280-312 | one turn removes a due chunk together with its mark, moves a mark up to the end of the minimum storage, and touches no other key |
| DeletionPass.PassContract | index.go:271-316 | only chunks past their mark and past last-modified plus 180 days go, no mark is lowered, every mark that stays is at or after now |
| DeletionPass.PassByKey | index.go:280-312 | what becomes of each key: a mark that has not passed stays, a passed one is moved up to 180 days after last-modified while those last, any other goes with its chunk |
| DeletionPass.PassIsIdempotent | index.go:271-316 | a second pass at the same instant changes nothing |
| DeletionPass.PassConserves | index.go:303-312 | what files and marks accounted for before a pass they account for after it |
| UploadPlan.BuildChunksMap | chunk.go:18-24 | the keys are exactly the chunks of the files, all of them unseen |
| UploadPlan.PlanUploads | backup.go:66-94 | in any order: exactly one task per local chunk the old index lacks, old chunks flagged exactly if still used, marks of used chunks dropped, counters equal to the matching set sums |
| Backups.UploadPayload | backup.go:26-48 | adds at most its own chunk, with the bytes of its file; success means it is stored or its file was gone |
| Backups.UploadTasks | backup.go:96-110 | success means every chunk of the new index is stored, save those whose file vanished; nothing else changes |
| Backups.ClampMarks | backup.go:58-64 | a mark up to three years after the start is kept, one over three years ahead becomes start plus seven days, with the clock read anew for each; no key is lost |
| Backups.MarkUnused | backup.go:115-120 | every chunk of the old index no local file uses gets the seven-day mark, overriding an older one |
| Backups.MarksArePlanned | backup.go:58-120 | the three loops together give exactly the marks the protocol plans |
| Backups.MarkAndDelete | backup.go:115-121 | from uploads done to the end of the pass: planned marks, then exactly what a pass over them leaves |
| Backups.UploadFiles | backup.go:50-169 | where no call fails it succeeds; success leaves a state ready to publish, its marks and store those of the planned pass, `cnt`, `uploadSize` and `totalSize` the set sums; an error leaves nothing to publish; every new object is a local file's bytes under a chunk the old index lacked |
| Backups.TaskCount | backup.go:87-89 | the number of uploads is the number of missing chunks |
| Backups.UploadsAreAddressed | backup.go:82-89 | uploads keep the store content-addressed: every object has the size and hash in its name |
| Backups.GenerateLocal | scanner.go:59-97 | every sound file a walk meets is recorded with its mode, time and size, and with the hash the last index has exactly if path, size and time are the same, else with the hash of its bytes, or not at all if they cannot be read; every sound directory and link is recorded, and nothing else is |
| Backups.RecordedHolds | backup.go:171-192 | so is whatever a backup records |
| Backups.BackupFiles | backup.go:171-192 | where no call fails it succeeds and publishes; success means it recorded a scan of the configured paths, the cache holds that index, and it is the newest published one if and only if its temporary file or the newest version had a digest or it was the newest already; failure leaves the newest as it was or already that; the store stays content-addressed either way |
| Fscks.DropLostFiles | fsck.go:30-39 | keeps exactly the files whose chunk is listed, flags exactly their chunks, and reports a loss exactly if a file went |
| Fscks.DropLostMarks | fsck.go:41-50 | keeps exactly the marks of listed chunks and flags those chunks |
| Fscks.MarkFound | fsck.go:52-58 | every listed chunk nothing refers to gets the ten-year mark |
| Fscks.LoopsReconcile | fsck.go:29-58 | the three loops together are the reconciliation of index and listing |
| Fscks.FsckRemote | fsck.go:10-64 | a fsck that ends well has kept exactly the files whose chunk is stored, accounts for exactly the stored chunks, each mark the old one, a raised one or the ten-year one, and reports a loss if and only if the old index listed a chunk that is missing; that index is then the newest, but for empty digests on both sides; nothing stored is added or overwritten; where no call fails it publishes unless there is no index, and its pass is complete |
| Fscks.ListAndPublish | fsck.go:24-62 | from the listing on: where no call fails it ends well, and then the index is the one that listing reconciles the loaded one to, published but for empty digests on both sides |
| Scanner.ScanSingleFile | scanner.go:11-57 | a sound directory, link or regular file that is not skipped has its entry afterwards, in the map of its kind and under its path; nothing else is recorded, changed or lost |
| Scanner.ScanRoots | scanner.go:60-75 | every sound file, link and unskipped directory that a walk meets at any depth has its entry with its own fields, and every entry is that of such a visit |
| Scanner.SoundFileIsRecorded | scanner.go:65-75 | where a walk ends well, a sound file anywhere below entered directories is recorded |
| Walks.WalkIff | scanner.go:65-70 | a walk visits exactly what is reached through listed directories that are not skipped and has no failing entry before it in the order of the walk |
| Walks.WalkOfDir | scanner.go:65-70 | an entered directory is visited, then all its children visit, up to and including the first that fails and none after it |
| Walks.StopsIff | scanner.go:66-68 | a walk fails exactly if it reaches something that is not there or a directory that cannot be listed |
| Walks.VisitsIff | scanner.go:62-75 | a failing walk ends alone: every configured path is walked |
| Scanner.ScanOfNext | scanner.go:65-70 | from a scan of the visits so far, recording one more visit so gives a scan of all of them |
| Scanner.HashFiles | scanner.go:77-96 | every file keeps the hash of the last index exactly where path, size and time agree, else gets that of its bytes; one that has to be read and cannot be leaves the index; no other field changes |
| Scanner.UploadsAreFresh | scanner.go:80-88 | a file whose chunk the last index lacks was hashed from its own bytes in this run |
| Scanner.ReuseIsInvisible | scanner.go:80-85 | if equal path, size and time mean equal hashes, reuse changes nothing |
| Verify.VerifySingleFile | verify.go:13-87 | the list grows exactly if the entry does not match index and chunk listing; it fails exactly where the entry cannot be read |
| Verify.VerifyRoots | verify.go:104-117 | it gives a verdict if and only if all walks end well and what they meet can be read, and an empty list if and only if every directory, link and file they meet is in the index, equal, each file readable and its chunk listed |
| Verify.VerifyFiles | verify.go:89-123 | success if and only if the newest index answers for everything the walks meet, an unreadable file being a mismatch, and all its chunks are stored; where no call fails there is a verdict if and only if there is an index and the walk is error-free |
| Verify.VerifyAgreesWithScan | verify.go:28-82 | on a readable tree verify is silent if and only if the index has every entry a fresh scan would record, equal, with its chunk stored |
| Verify.VerifySilentAfterBackup | verify.go:89-122 | so it is silent after a completed backup of an unchanged tree, reused hashes included |
| Verify.BackupThenVerify | verify.go:89-123 | in a trusted run a verify right after a backup that was published, of an unchanged tree, never reports a mismatch, and where no call fails both end well |
| Targets.Target.MkdirAll | link.go:19-24 | succeeds exactly if nothing but directories is in the way, makes exactly the missing ones, all with the given mode, and leaves the modes of the others; escapes exactly if a symbolic link stands at or above the path |
| Targets.LocalNameInjective | download.go:28-34 | two chunks never share a local file |
| Targets.LocalNameShape | download.go:28-34 | the directory of a chunk file is the two digits of the last byte of its hash |
| Restores.FetchChunk | download.go:27-64 | a legible local file of the right size and hash is left alone and nothing is downloaded; at most ten downloads; success means the local file has the stored bytes or at least the key's size and hash; a stored chunk is given up only after ten failed downloads; other chunk files are untouched |
| Restores.DownloadChunk | download.go:15-66 | success means that holds for every listed chunk, in any order; where no call fails it succeeds on stored chunks |
| Restores.DownloadFiles | download.go:68-89 | success leaves the newest index saved and every stored chunk fetched; where no call fails it succeeds exactly if there is an index |
| Links.MakeDirs | link.go:19-24 | exactly the indexed directories and what is above them, with the modes the order of the range gives them; refused only if something else is in the way, escaped only if a symbolic link of the target is |
| DirModes.MadeByFirst | link.go:19-24 | every directory made has the mode of the first indexed directory at or below it in the order of the range |
| DirModes.DirModesKeptIff | link.go:19-24 | the recorded modes of the directories come back in every order if and only if nested indexed directories agree on them |
| DirModes.InnerModeSpreads | link.go:19-24 | an index of /a with 0755 and /a/b with 0700 for which one order leaves /a with 0700 |
| Links.MakeLinks | link.go:26-31 | exactly the indexed links added; refused only if one has no free place, escaped only if one stands behind another that has |
| Links.MakeFiles | link.go:33-48 | exactly the indexed files added as hard links of their chunks, each with mode and time of some file of that chunk; refused only if one has no free place or no chunk, escaped only if one with a chunk stands behind a link |
| Links.LinkFiles | link.go:10-50 | where no operation fails there is a verdict exactly if the saved index can be loaded; success means the index fits the target, which then shows its entries and nothing else new, directories with the modes of one order; refusal that it does not fit; and an escape that some order meets an entry behind a link |
| Escapes.EscapeIff | link.go:26-48 | linking into an empty target can leave it, in some order of the two ranges, if and only if a link, or a file with its chunk where all links fit, stands behind an indexed link that fits |
| Escapes.LinksPlaced | link.go:26-31 | how the links end, in any order, says whether all of them fit, one does not, or one stands behind another |
| Escapes.PathThroughLinkEscapes | link.go:33-39 | a directory, a link in it and a configured path through that link are such an index |
| Restores.ShapedStaysInside | link.go:17-48 | an index that can be laid out in an empty target has no entry behind a link of its own, so no order leaves the target |
| Links.AttributesSet | link.go:40-47 | setting one file's mode and time sets those of every file that shares its chunk |
| Restores.LinkableIffShaped | link.go:17-48 | an empty target takes an index if and only if its entries stand in indexed directories, do not collide, and all chunks are there |
| Restores.LoneFileIsRefused | link.go:33-39 | a file whose directory is not backed up (a configured path that is itself a file) can never be linked |
| Restores.DownloadThenLink | download.go:68-89 | after any trusted run with a content-addressed store, where no call fails, downloading and linking into an empty target restores the newest index exactly, directory modes included where nested ones agree, or is refused because there is none or its entries cannot be laid out; it leaves the target only if they cannot |
| ScanShapes.ShapedIffFit | scanner.go:60-75 | what a walk records can be laid out again if and only if every configured file or link has its directory in the backup and nothing but directories stands above a recorded configured path |
| ScanShapes.OnlyDirsAbove | scanner.go:65-70 | then nothing but directories is met above anything recorded |
| ScanShapes.LoneFileDoesNotFit | scanner.go:62-75 | a scan of a single configured file is one that cannot |
| ScanShapes.FewerFilesAreRestorable | fsck.go:30-39 | dropping files leaves the rest as restorable as it was |
| Histories.BackupIsRestorable | backup.go:171-192 | what a backup of configured paths that fit records can be laid out in an empty target |
| Histories.BackupKeys | scanner.go:77-96 | the keys it publishes are those of the files' bytes, reused hashes included where reuse is sound |
| Histories.OriginalBytes | link.go:33-39 | where equal keys mean equal bytes, every restored file has the bytes that were backed up |
| Histories.BackupThenRestore | link.go:10-50 | backup, download and link in one go: in a trusted run in which no call fails every directory, link and file the backup recorded comes back, with the very bytes where keys can be trusted and the directory modes where nested ones agree; where calls fail, what comes back is the newest index, which is the recorded one but for empty digests on both sides |
| Histories.RunCommand | backup.go:171-192 | a backup or fsck, however it ends, leaves stored bytes that fit their names and a newest index that can be laid out |
| Histories.EmptyIsSane | backup.go:177-183 | a bucket without an index, strays that fit their names included, is where such a history may start |
| Histories.HistoryThenRestore | download.go:68-89 | after any number of backups and fscks, in any order and ending in any way, a download and a link in which no call fails restore the newest index of a trusted run, if there is one |
| Histories.AttributesKeptIff | link.go:40-47 | after linking, every file has its recorded mode and time if and only if files that share a chunk agree on them |
| Histories.SharedChunkLosesMode | link.go:33-47 | an index of two empty files with different modes, one of which always comes back wrong |
| PathCodec.PathRoundTrip | pathcodec.go:31-91 | decoding undoes encoding for every byte string: truncated sequences, surrogates, a genuine U+FFFD, runs of the quote rune |
| PathCodec.EncodedInjective | pathcodec.go:31-56 | no two paths are stored alike |
| PathCodec.EncodedIsValid | pathcodec.go:31-56 | what is stored is well-formed UTF-8 (section 4 of RFC 3629) |
| PathCodec.UnchangedIffPlain | pathcodec.go:25-34 | a path is stored verbatim if and only if it is valid and free of the quote rune |
| Rfc3629.DecodesBack | pathcodec.go:37-38 | the bytes of every code point (section 3 of RFC 3629), whatever follows, are read as that code point with their length |
| Rfc3629.OnlyCodesDecode | pathcodec.go:37-38 | and a well-formed sequence is the bytes of a code point, so no overlong form, surrogate or anything above U+10FFFF is |
| Rfc3629.ValidIff | pathcodec.go:26 | text is valid if and only if it is written code point by code point |
| Rfc3629.VerbatimIff | pathcodec.go:25-34 | a path is stored verbatim if and only if it is text without the code point U+201B |
| Rfc3629.QuoteBytes | pathcodec.go:22 | the quote is the three bytes of U+201B |
| Rfc3629.CodeIsStored | pathcodec.go:45-52 | each code point is stored as it is, U+201B twice |
| Rfc3629.StrayIsStored | pathcodec.go:40-44 | a byte that starts no code point is stored as U+201B and its two upper-case hexadecimal digits |
| Rfc3629.EscapeIsRead | pathcodec.go:77-83 | U+201B before two hexadecimal digits of either case is read as their byte |
| Rfc3629.QuoteIsRead | pathcodec.go:71-88 | before another U+201B it is read as one, and before anything else as itself |
| Rfc3629.PlainIsRead | pathcodec.go:65-70 | every other code point is read as itself |
| Rfc3629.StrayIsRead | pathcodec.go:65-70 | a stray byte is read as itself |
| PathCodec.EncodedLength | pathcodec.go:32-34 | rewriting lengthens exactly the paths that need it, so the early return agrees with the loop |
| PathCodec.DecodedUnquoted | pathcodec.go:60-62 | without a quote rune the decoding loop changes nothing, so the early return agrees with it |
| PathCodec.QuoteOnBoundary | pathcodec.go:26 | a byte-wise occurrence of the quote rune always sits on a rune boundary |
| PathCodec.EncodedComponentwise | pathcodec.go:37-54 | a path is encoded name by name around its slashes |
| PathCodec.EncodePath | pathcodec.go:31-56 | the early return and the loop both give the stored form |
| PathCodec.DecodePath | pathcodec.go:59-91 | the early return and the loop both give the decoded form |
| KeyMaps.KeysRoundTrip | pathcodec.go:95-130 | decoding the keys of an encoded map, in any order, gives the map back |
| KeyMaps.EncodedKeysSize | pathcodec.go:106-110 | no keys are merged |
| KeyMaps.EncodeKeys | pathcodec.go:95-111 | the shortcut and the loop both rewrite every key and keep its value |
| KeyMaps.DecodeKeys | pathcodec.go:114-130 | the shortcut and the loop both decode every key and keep its value |
| ChunkKeys.KeyCodecsAgree | types.go:112-163 | for every size from 0 to 2^63-1, what either printer writes either parser reads back |
| ChunkKeys.ChunkPathInjective | chunk.go:40-42 | no two chunks share an object name |
| ChunkKeys.ParseInt64FromBytes | types.go:133-139 | the loop gives the accumulator's value |
| ChunkKeys.WrapsAround | types.go:133-139 | on any bytes that value differs from the unbounded one by a multiple of 2^64 |
| ChunkKeys.NeverWraps | types.go:133-139 | on a printed size no intermediate value leaves int64 |
| ChunkKeys.IntRoundTrip | chunk.go:41-54 | every 64-bit integer is read back from its text |
| ChunkKeys.MalformedIsZero | chunk.go:44-57 | a name that is no key's is read as a size or a hash of zero |
| ChunkKeys.KeyText | types.go:155-163 | both printers write size, dash and digits; only the index leaves out the digits of a hash of zeros |
| ChunkKeys.PrintedInDecimal | chunk.go:41 | a printed size is its decimal text, place by place, without leading zeros |
| ChunkKeys.HexDigitsAt | chunk.go:41 | hash text has two lower-case digits for each byte, the high one first |
| ChunkKeys.HexRoundTrip | chunk.go:41-54 | hexadecimal text of any bytes decodes to them |
| ChunkKeys.HashTextRoundTrip | types.go:112-131 | the empty text of the zero hash and the digits of any other read back |
| ChunkKeys.NegativeSizeIsLost | chunk.go:44-57 | a negative size would be read back as the zero key |
| IndexDoc.IndexRoundTrip | types.go:38-90 | a saved index loads back as itself, whatever bytes its paths and targets hold |
| IndexDoc.MarshalIsReadable | index.go:74-113 | `Load` accepts every saved index |
| IndexDoc.SavedIndexLoads | types.go:38-90 | a saved index stands for the index it was saved from |
| IndexDoc.MarshalInjective | index.go:25-31 | equal documents, and so equal digests, mean equal indexes |
| IndexDoc.LoadMarks | types.go:142-153 | every mark is read back under its key |
| MountView.ShownOneWay | mount.go:46-91 | two trees that show the same entries are the same, so no order of insertion matters |
| MountView.DirShown | mount.go:73-76 | making the parent and then the directory adds exactly that directory, those above it and its mode |
| MountView.FileShown | mount.go:78-84 | placing a file adds it under its name and nothing else but missing directories |
| MountView.LinkShown | mount.go:85-88 | likewise for a link |
| MountTree.EnsureDir | mount.go:48-66 | walks or grows the heap tree to the directory, sets a non-zero mode at its end, keeps the tree unshared and acyclic |
| MountTree.AddChild | mount.go:55-59 | hooking a fresh directory in keeps the nodes a tree |
| MountTree.SplitNonEmpty | mount.go:114-126 | the scan gives the non-empty pieces between separators |
| MountTree.SplitMountPath | mount.go:93-112 | a clean path splits into its components |
| MountTree.BuildMountTree | mount.go:46-91 | the finished heap nodes form a tree that shows exactly the index, in any order of insertion |
| MountTree.WalkFindsEntries | mount.go:78-88 | walking a path's components reaches its file or link if and only if the index has it, with the same information |
| MountTree.WalkFindsDirs | mount.go:47-76 | the directories are the root, the indexed ones and all those above an entry; modes are the recorded non-zero ones, else 0555 |
| MountTree.WalkReaches | mount.go:54-64 | a walk from the root reaches the one node of its components or nothing |
| Inodes.MountRoot.AddDirChildren | mount.go:147-182 | every name below gets one node of the right kind, under numbers never used before; what was there stays |
| Inodes.MountRoot.OnAdd | mount.go:143-145 | all inode numbers are distinct and above 1, and the nodes are exactly those of the tree |
| Inodes.KindOfPath | mount.go:153-181 | a path of the index is shown as a directory, a file or a link, in that precedence |
| DirMaps.SlotRecovers | browse.go:198-203 | the original path can be told from the slot, orphans under the root included |
| DirMaps.SlotsDoNotCollide | browse.go:198-208 | no two entries of a kind share a slot |
| DirMaps.BuildDirMap | browse.go:195-237 | every file, directory and link whose directory is indexed is found there under its base name, every other under the root by its full path, and nothing else is filed |
| Paths.PathOfInjective | mount.go:93-112 | a clean path has one list of components |
| Paths.DirAndBase | browse.go:198-199 | `path.Dir` and `path.Base` split off the last component |

## Left out

- HTTP, the COS SDK, credentials, upload threads and the retry of `ServiceUnavailable` (cos.go:59-69): a remote call is one step that succeeds or fails; uploads only add chunks, so their order does not matter.
- The `restore` command (thawing archived objects), the upload size report (backup.go:123-166), progress, logging, configuration, flags and the web pages: no state of the archive depends on them.
- FUSE handlers and file contents of the mount (a placeholder text): only the tree, its modes and inodes are modelled. The order of the names in `addDirChildren` and of `dirPaths` is left open, which covers the sorted order.
- Inode numbers are unbounded; 2^64 nodes are out of reach.
- Totals of sizes (`uploadSize`, `totalSize`) are unbounded sums; an archive over 2^63 bytes would wrap them.
- Calendar arithmetic of `AddDate`: days and years have fixed length, so leap days and daylight saving shift nothing.
- `path.Clean` on unclean paths and relative paths: `MountTree` and `DirMaps` take clean absolute paths, as the walk produces them.
- The inside of `chunkHash` and its sampling of large files: an unknown function of the bytes. A file that changes length between walk and hash is excluded where keys are related to bytes (`SizesMatch`).
- Links.LinkFiles: ends with `Escaped` at the first path that leads through a symbolic link of the target; where the operating system takes it from there, and the rest of the run, is left open. When that can happen is proved (`Escapes.EscapeIff`). Missing write permission in a directory created with its recorded mode counts as a disk fault.
- Histories.BackupThenRestore: where the newest version carries no digest, that version must have clean paths, as the walk produces them; it may then be the one that is restored.
- Restores.FetchChunk: a chunk file is replaced as a whole; that an interrupted download may be visible to another reader while it runs is not modelled.
- Indexes.Index.Load: hash text longer than a hash and negative sizes are refused, where the program would panic or accept them.
- Restorability of older retained versions past their grace window: the program does not promise it.
- The two index files `<index>` and `<index>.remote` in the working directory are one cache: the second is removed before every download and never read otherwise.
