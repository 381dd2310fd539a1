// types.go: what an archive is made of.
module Archive {
  import opened Utf8
  import opened ChunkKeys

  type Path = Bytes
  type Size = n: int64 | n >= 0

  datatype FileInfo = FileInfo(size: Size, mode: nat, modTime: int, hash: Hash)
  datatype DirInfo = DirInfo(mode: nat)
  datatype LinkInfo = LinkInfo(linkTo: Path)

  type Files = map<Path, FileInfo>
  type Dirs = map<Path, DirInfo>
  type Links = map<Path, LinkInfo>

  // Chunk key to the Unix time after which the chunk may go.
  type Marks = map<Key, int>

  datatype Entries = Entries(files: Files, dirs: Dirs, links: Links)

  // The persistent part of an Index: everything that is saved.
  datatype IndexVal = IndexVal(entries: Entries, deleted: Marks)

  const NO_ENTRIES := Entries(map[], map[], map[])
  const EMPTY_INDEX := IndexVal(NO_ENTRIES, map[])

  function KeyOf(fi: FileInfo): Key {
    ChunkKey(fi.size, fi.hash)
  }

  // The chunks a set of files refers to.
  function Chunks(files: Files): set<Key> {
    set p | p in files :: KeyOf(files[p])
  }

  function IndexChunks(v: IndexVal): set<Key> {
    Chunks(v.entries.files)
  }
}
