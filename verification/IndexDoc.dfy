// The saved form of an index. The JSON library is taken to be a faithful
// encoding of string-keyed maps, so a document is modelled as those maps; all
// rewriting of keys and values around it is here.
module IndexDoc {
  import opened Utf8
  import opened Wrappers
  import opened PathCodec
  import opened KeyMaps
  import opened ChunkKeys
  import opened Archive

  datatype FileDoc = FileDoc(size: Size, mode: nat, modTime: int, hash: Text)

  datatype Doc =
    Doc(files: map<Text, FileDoc>, dirs: map<Text, DirInfo>, links: map<Text, Text>, deleted: map<Text, int>)

  // ---- values ----

  predicate IsAscii(s: Bytes) {
    forall i :: 0 <= i < |s| ==> s[i] < 0x80
  }

  lemma {:induction false} AsciiIsValid(s: Bytes)
    requires IsAscii(s)
    ensures IsValid(s)
  {
    if s != [] {
      assert SequenceLength(s) == 1;
      AsciiIsValid(s[1..]);
    }
  }

  lemma {:induction false} HexIsAscii(h: Bytes)
    ensures IsAscii(HexEncode(h))
  {
    if h != [] {
      HexIsAscii(h[1..]);
    }
  }

  function HashDoc(h: Hash): (t: Text)
    ensures t == HashText(h)
  {
    HexIsAscii(h);
    AsciiIsValid(HashText(h));
    HashText(h)
  }

  function KeyDoc(k: Key): (t: Text)
    ensures t == MarshalKey(k)
  {
    HexIsAscii(k.hash);
    AsciiIsValid(MarshalKey(k));
    MarshalKey(k)
  }

  function MarshalFile(fi: FileInfo): FileDoc {
    FileDoc(fi.size, fi.mode, fi.modTime, HashDoc(fi.hash))
  }

  // ---- Save ----

  function FileDocs(files: Files): map<Path, FileDoc> {
    map p | p in files :: MarshalFile(files[p])
  }

  function LinkDocs(links: Links): map<Path, Text> {
    map p | p in links :: EncodedText(links[p].linkTo)
  }

  // ChunkKey.UnmarshalText; hash text longer than a hash is outside the model.
  function KeyRead(t: Bytes): Result<ChunkKey, ()> {
    if |Split(t, DASH)| == 2 && |Split(t, DASH)[1]| > 40 then Err(()) else UnmarshalKey(t)
  }

  lemma KeyDocReads(k: Key)
    ensures KeyRead(KeyDoc(k)) == Ok(k)
  {
    hide ParseKey, IsValid, UnmarshalKey, Split, ChunkPath;
    KeyCodecsAgree(k);
  }

  lemma KeyDocsRead()
    ensures forall k: Key {:trigger KeyDoc(k)} :: KeyRead(KeyDoc(k)) == Ok(k)
  {
    hide *;
    forall k: Key ensures KeyRead(KeyDoc(k)) == Ok(k) {
      KeyDocReads(k);
    }
  }

  function MarkDocs(m: Marks): (r: map<Text, int>)
    ensures forall k :: k in m ==> KeyDoc(k) in r && r[KeyDoc(k)] == m[k]
    ensures forall t :: t in r ==> KeyRead(t).Ok? && KeyRead(t).value in m && KeyDoc(KeyRead(t).value) == t
  {
    hide *;
    KeyDocsRead();
    map k | k in m :: KeyDoc(k) := m[k]
  }

  function Marshal(v: IndexVal): Doc {
    Doc(EncodedKeys(FileDocs(v.entries.files)), EncodedKeys(v.entries.dirs), EncodedKeys(LinkDocs(v.entries.links)),
        MarkDocs(v.deleted))
  }

  // ---- Load ----

  // One file entry read back; hash text longer than a hash is outside the model.
  ghost predicate LoadsFile(d: FileDoc, fi: FileInfo) {
    && |d.hash| <= 40
    && UnmarshalHash(d.hash) == Ok(fi.hash)
    && fi.size == d.size && fi.mode == d.mode && fi.modTime == d.modTime
  }

  ghost predicate LoadsFiles(d: map<Text, FileDoc>, files: Files) {
    exists raw: map<Path, FileDoc> :: IsDecoding(d, raw) && raw.Keys == files.Keys
      && forall p :: p in files ==> LoadsFile(raw[p], files[p])
  }

  ghost predicate LoadsLinks(d: map<Text, Text>, links: Links) {
    exists raw: map<Path, Text> :: IsDecoding(d, raw) && raw.Keys == links.Keys
      && forall p :: p in links ==> Decoded(raw[p]) == links[p].linkTo
  }

  ghost predicate LoadsMarks(d: map<Text, int>, m: Marks) {
    && (forall t :: t in d ==> KeyRead(t).Ok? && KeyRead(t).value in m)
    && (forall k :: k in m ==> exists t :: t in d && KeyRead(t) == Ok(k) && d[t] == m[k])
  }

  // v is an index that reading d can yield.
  ghost predicate Loads(d: Doc, v: IndexVal) {
    && LoadsFiles(d.files, v.entries.files)
    && IsDecoding(d.dirs, v.entries.dirs)
    && LoadsLinks(d.links, v.entries.links)
    && LoadsMarks(d.deleted, v.deleted)
  }

  predicate ReadableFile(d: FileDoc) {
    |d.hash| <= 40 && UnmarshalHash(d.hash).Ok?
  }

  predicate ReadableFiles(d: map<Path, FileDoc>) {
    forall t :: t in d ==> ReadableFile(d[t])
  }

  predicate ReadableMarks(d: map<Text, int>) {
    forall t :: t in d ==> KeyRead(t).Ok? && KeyRead(t).value.size >= 0
  }

  function FilesOf(raw: map<Path, FileDoc>): Files
    requires ReadableFiles(raw)
  {
    map p | p in raw :: FileInfo(raw[p].size, raw[p].mode, raw[p].modTime, UnmarshalHash(raw[p].hash).value)
  }

  function LinksOf(raw: map<Path, Text>): Links {
    map p | p in raw :: LinkInfo(Decoded(raw[p]))
  }

  lemma FilesLoad(d: map<Text, FileDoc>, raw: map<Path, FileDoc>)
    requires IsDecoding(d, raw) && ReadableFiles(d)
    ensures ReadableFiles(raw) && LoadsFiles(d, FilesOf(raw))
  {
  }

  lemma LinksLoad(d: map<Text, Text>, raw: map<Path, Text>)
    requires IsDecoding(d, raw)
    ensures LoadsLinks(d, LinksOf(raw))
  {
    hide Decoded, IsValid;
  }

  // Key texts that read alike are one mark: the last one read wins.
  method LoadMarks(d: map<Text, int>) returns (m: Marks)
    requires ReadableMarks(d)
    ensures LoadsMarks(d, m)
  {
    hide KeyRead, IsValid;
    m := map[];
    var todo := d.Keys;
    while todo != {}
      invariant todo <= d.Keys
      invariant forall t :: t in d.Keys - todo ==> KeyRead(t).value in m
      invariant forall k :: k in m ==> exists t :: t in d && KeyRead(t) == Ok(k) && d[t] == m[k]
      decreases todo
    {
      ghost var some := ElementOf(todo);
      var t :| t in todo;
      todo := todo - {t};
      m := m[KeyRead(t).value := d[t]];
    }
  }

  // ---- Load inverts Save ----

  lemma FilesRoundTrip(files: Files, out: Files)
    requires LoadsFiles(EncodedKeys(FileDocs(files)), out)
    ensures out == files
  {
    hide Decoded, Encoded, EncodedKeys, IsValid, UnmarshalHash, HashText, HashDoc;
    var raw: map<Path, FileDoc> :| IsDecoding(EncodedKeys(FileDocs(files)), raw) && raw.Keys == out.Keys
      && forall p :: p in out ==> LoadsFile(raw[p], out[p]);
    KeysRoundTrip(FileDocs(files), raw);
    assert out.Keys == files.Keys by { assert raw.Keys == files.Keys; }
    forall p | p in out ensures out[p] == files[p] {
      HashTextRoundTrip(files[p].hash);
    }
  }

  lemma LinksRoundTrip(links: Links, out: Links)
    requires LoadsLinks(EncodedKeys(LinkDocs(links)), out)
    ensures out == links
  {
    hide Decoded, Encoded, EncodedKeys, EncodedText, IsValid;
    var raw: map<Path, Text> :| IsDecoding(EncodedKeys(LinkDocs(links)), raw) && raw.Keys == out.Keys
      && forall p :: p in out ==> Decoded(raw[p]) == out[p].linkTo;
    KeysRoundTrip(LinkDocs(links), raw);
    assert out.Keys == links.Keys by { assert raw.Keys == links.Keys; }
    forall p | p in out ensures out[p] == links[p] {
      PathRoundTrip(links[p].linkTo);
    }
  }

  lemma MarksRoundTrip(m: Marks, out: Marks)
    requires LoadsMarks(MarkDocs(m), out)
    ensures out == m
  {
    hide KeyDoc, IsValid, MarkDocs, KeyRead;
    forall k | k in m ensures k in out {
      KeyDocReads(k);
      assert KeyDoc(k) in MarkDocs(m);
    }
    forall k | k in out ensures k in m && out[k] == m[k] {
      var t :| t in MarkDocs(m) && KeyRead(t) == Ok(k) && MarkDocs(m)[t] == out[k];
    }
  }

  // A saved index loads back as itself, whatever bytes its paths hold.
  lemma IndexRoundTrip(v: IndexVal, w: IndexVal)
    requires Loads(Marshal(v), w)
    ensures w == v
  {
    hide EncodedKeys, FileDocs, LinkDocs, MarkDocs, LoadsFiles, LoadsLinks, LoadsMarks, IsDecoding;
    FilesRoundTrip(v.entries.files, w.entries.files);
    KeysRoundTrip(v.entries.dirs, w.entries.dirs);
    LinksRoundTrip(v.entries.links, w.entries.links);
    MarksRoundTrip(v.deleted, w.deleted);
  }

  lemma EncodedKeysDecode<V>(m: map<Bytes, V>)
    ensures IsDecoding(EncodedKeys(m), m)
  {
    hide Decoded, Encoded, EncodedKeys, EncodedText, IsValid;
    forall p | p in m
      ensures EncodedText(p) in EncodedKeys(m) && Decoded(EncodedText(p)) == p && m[p] == EncodedKeys(m)[EncodedText(p)]
    {
      PathRoundTrip(p);
    }
    forall k | k in EncodedKeys(m) ensures Decoded(k) in m {
    }
  }

  // And a saved index can always be loaded.
  lemma SavedIndexLoads(v: IndexVal)
    ensures Loads(Marshal(v), v)
  {
    hide Decoded, Encoded, EncodedKeys, IsValid, UnmarshalHash, HashText, HashDoc, MarkDocs, LoadsMarks;
    EncodedKeysDecode(FileDocs(v.entries.files));
    EncodedKeysDecode(v.entries.dirs);
    EncodedKeysDecode(LinkDocs(v.entries.links));
    forall p | p in v.entries.files ensures LoadsFile(MarshalFile(v.entries.files[p]), v.entries.files[p]) {
      HashTextRoundTrip(v.entries.files[p].hash);
    }
    forall p | p in v.entries.links
      ensures Decoded(EncodedText(v.entries.links[p].linkTo)) == v.entries.links[p].linkTo
    {
      PathRoundTrip(v.entries.links[p].linkTo);
    }
    MarksLoad(v.deleted);
  }

  // Load accepts every saved index.
  lemma MarshalIsReadable(v: IndexVal)
    ensures ReadableFiles(Marshal(v).files) && ReadableMarks(Marshal(v).deleted)
  {
    hide EncodedKeys, MarkDocs, KeyRead, UnmarshalHash, Decoded, EncodedText, HashDoc, HashText, IsValid, FileDocs;
    var files := FileDocs(v.entries.files);
    forall t | t in EncodedKeys(files) ensures ReadableFile(EncodedKeys(files)[t]) {
      FileIsReadable(v.entries.files, Decoded(t));
      assert EncodedKeys(files)[EncodedText(Decoded(t))] == files[Decoded(t)];
    }
  }

  lemma FileIsReadable(files: Files, p: Path)
    requires p in FileDocs(files)
    ensures ReadableFile(FileDocs(files)[p])
  {
    hide UnmarshalHash, HashText, HashDoc;
    HashTextRoundTrip(files[p].hash);
  }

  lemma MarksLoad(m: Marks)
    ensures LoadsMarks(MarkDocs(m), m)
  {
    hide KeyDoc, IsValid, MarkDocs, KeyRead;
    forall t | t in MarkDocs(m) ensures KeyRead(t).Ok? && KeyRead(t).value in m {
    }
    forall k | k in m ensures exists t :: t in MarkDocs(m) && KeyRead(t) == Ok(k) && MarkDocs(m)[t] == m[k] {
      KeyDocReads(k);
      assert KeyDoc(k) in MarkDocs(m);
    }
  }

  // Equal documents, and so equal digests of documents, mean equal indexes.
  lemma MarshalInjective(v: IndexVal, w: IndexVal)
    requires Marshal(v) == Marshal(w)
    ensures v == w
  {
    SavedIndexLoads(v);
    IndexRoundTrip(w, v);
  }
}
