/** Synchronisation of the markdown memory files into the store (sync.py):
    namespace detection from a relative path, the file filter of the
    directory scan, indexing and deleting one file, and the `sync` diff
    that classifies every path as added, updated, deleted or unchanged.

    The file system is abstracted: a scanned directory is the list of its
    files (name, paths, mtime, content hash and content) in walk order, and
    the embedder is a function from chunk text to embedding. */
module Sync {
  import opened Base
  import Chunker
  import opened Store

  // ---------------------------------------------------------------------------
  // Namespaces
  // ---------------------------------------------------------------------------

  /** `s.replace(a, b)` for single characters. */
  function ReplaceChar(s: string, a: char, b: char): (r: string)
    ensures |r| == |s| && a != b ==> a !in r
  {
    seq(|s|, i requires 0 <= i < |s| => if s[i] == a then b else s[i])
  }

  /** `_detect_namespace(rel_path)`: the namespace and agent name a path
      relative to the memory directory implies. */
  function DetectNamespace(relPath: string): (r: (string, Option<string>))
    ensures r.0 == "project" || r.0 == "session" || r.0 == "agent"
    ensures r.1.Some? <==> r.0 == "agent"
  {
    var parts := Split(ReplaceChar(relPath, '\\', '/'), '/');
    var basename := parts[|parts| - 1];
    if |parts| == 1 && Upper(basename) == "MEMORY.MD" then ("project", None)
    else if |parts| >= 2 && Lower(parts[0]) == "sessions" then ("session", None)
    else if |parts| >= 2 && Lower(parts[0]) == "agents" then ("agent", Some(Stem(basename)))
    else ("project", None)
  }

  /** A separator between two separator-free strings splits into exactly
      those two strings. */
  lemma {:induction false} SplitTwo(a: string, b: string, c: char)
    requires c !in a && c !in b
    ensures Split(a + [c] + b, c) == [a, b]
    decreases |a|
  {
    if |a| == 0 {
      assert a + [c] + b == [c] + b;
      assert ([c] + b)[1..] == b;
      SplitNoSep(b, c);
    } else {
      assert (a + [c] + b)[1..] == a[1..] + [c] + b;
      SplitTwo(a[1..], b, c);
      assert a == [a[0]] + a[1..];
    }
  }

  /** A file directly in the memory directory is a project file. */
  lemma NamespaceTopLevel(name: string)
    requires '/' !in name && '\\' !in name
    ensures DetectNamespace(name) == ("project", None)
  {
    assert ReplaceChar(name, '\\', '/') == name;
    SplitNoSep(name, '/');
  }

  /** A file one folder down, with either separator, takes its namespace
      from the folder name, case-insensitively: `sessions` gives a session
      file, `agents` an agent file named by the file's stem. */
  lemma NamespaceInFolder(folder: string, sep: char, name: string)
    requires sep == '/' || sep == '\\'
    requires '/' !in folder && '\\' !in folder && '/' !in name && '\\' !in name
    ensures DetectNamespace(folder + [sep] + name) ==
      if Lower(folder) == "sessions" then ("session", None)
      else if Lower(folder) == "agents" then ("agent", Some(Stem(name)))
      else ("project", None)
  {
    var p := folder + [sep] + name;
    assert ReplaceChar(p, '\\', '/') == folder + ['/'] + name;
    SplitTwo(folder, name, '/');
  }

  // ---------------------------------------------------------------------------
  // Scanning
  // ---------------------------------------------------------------------------

  /** A file found by the directory walk: its name, its path relative to
      the scanned directory and to the project root, and what is read from
      it. */
  datatype DiskEntry = DiskEntry(name: string, relToSource: string, relToRoot: string, mtime: real, hash: string, content: string)

  /** `FileInfo`, with the content `_index_file` reads from it. */
  datatype FileInfo = FileInfo(path: string, namespace: string, agent: Option<string>, mtime: real, hash: string, content: string)

  /** `fname.lower().endswith(".md")` */
  predicate IsMarkdownName(name: string) {
    EndsWith(Lower(name), ".md")
  }

  function InfoOf(e: DiskEntry, namespaceOverride: Option<string>): FileInfo {
    var (ns, agent) := if Truthy(namespaceOverride) then (namespaceOverride.value, None) else DetectNamespace(e.relToSource);
    FileInfo(e.relToRoot, ns, agent, e.mtime, e.hash, e.content)
  }

  /** `scan_files(source_dir, project_root, namespace_override=...)` over
      the walked entries: the markdown files, in walk order. */
  function ScanFiles(entries: seq<DiskEntry>, namespaceOverride: Option<string>): (r: seq<FileInfo>)
    ensures |r| <= |entries|
  {
    if |entries| == 0 then []
    else
      var rest := ScanFiles(entries[1..], namespaceOverride);
      if IsMarkdownName(entries[0].name) then [InfoOf(entries[0], namespaceOverride)] + rest else rest
  }

  /** The scan keeps exactly the markdown entries, each with the override
      namespace and no agent when an override is given. */
  lemma {:induction false} ScanFilesSpec(entries: seq<DiskEntry>, namespaceOverride: Option<string>)
    ensures forall e :: e in entries && IsMarkdownName(e.name) ==> InfoOf(e, namespaceOverride) in ScanFiles(entries, namespaceOverride)
    ensures forall f :: f in ScanFiles(entries, namespaceOverride) ==>
      exists e :: e in entries && IsMarkdownName(e.name) && f == InfoOf(e, namespaceOverride)
    decreases |entries|
  {
    if |entries| > 0 {
      ScanFilesSpec(entries[1..], namespaceOverride);
      assert forall e :: e in entries ==> e == entries[0] || e in entries[1..];
    }
  }

  lemma OverrideNamespace(e: DiskEntry, ns: string)
    requires |ns| > 0
    ensures InfoOf(e, Some(ns)).namespace == ns && InfoOf(e, Some(ns)).agent == None
  {
  }

  /** The disk files `sync` considers: the memory directory with detected
      namespaces, then each extra directory forced to `project`. */
  function ScanAll(memoryEntries: seq<DiskEntry>, extraDirs: seq<seq<DiskEntry>>): seq<FileInfo>
    decreases |extraDirs|
  {
    if |extraDirs| == 0 then ScanFiles(memoryEntries, None)
    else ScanAll(memoryEntries, extraDirs[..|extraDirs| - 1]) + ScanFiles(extraDirs[|extraDirs| - 1], Some("project"))
  }

  /** `f` is what the scan makes of a markdown entry of the memory directory. */
  ghost predicate FromMemory(f: FileInfo, memoryEntries: seq<DiskEntry>) {
    exists e :: e in memoryEntries && IsMarkdownName(e.name) && f == InfoOf(e, None)
  }

  /** `f` is what the scan makes of a markdown entry of an extra directory. */
  ghost predicate FromExtra(f: FileInfo, extraDirs: seq<seq<DiskEntry>>) {
    exists i, e :: 0 <= i < |extraDirs| && e in extraDirs[i] && IsMarkdownName(e.name) && f == InfoOf(e, Some("project"))
  }

  /** The combined scan starts with the memory directory's files, and holds
      exactly the markdown entries of the memory directory with detected
      namespaces and those of the extra directories under `project`. */
  lemma {:induction false} ScanAllSpec(memoryEntries: seq<DiskEntry>, extraDirs: seq<seq<DiskEntry>>)
    ensures ScanFiles(memoryEntries, None) <= ScanAll(memoryEntries, extraDirs)
    ensures forall f :: f in ScanAll(memoryEntries, extraDirs) <==> FromMemory(f, memoryEntries) || FromExtra(f, extraDirs)
    decreases |extraDirs|
  {
    if |extraDirs| == 0 {
      ScanFilesSpec(memoryEntries, None);
    } else {
      var init, last := extraDirs[..|extraDirs| - 1], extraDirs[|extraDirs| - 1];
      assert ScanAll(memoryEntries, extraDirs) == ScanAll(memoryEntries, init) + ScanFiles(last, Some("project"));
      ScanAllSpec(memoryEntries, init);
      ScanFilesSpec(last, Some("project"));
      forall f
        ensures FromExtra(f, extraDirs) <==>
          FromExtra(f, init) || exists e :: e in last && IsMarkdownName(e.name) && f == InfoOf(e, Some("project"))
      {
        FromExtraSnoc(f, extraDirs);
      }
    }
  }

  /** An extra directory added at the end adds its own entries. */
  lemma FromExtraSnoc(f: FileInfo, extraDirs: seq<seq<DiskEntry>>)
    requires |extraDirs| > 0
    ensures FromExtra(f, extraDirs) <==>
      || FromExtra(f, extraDirs[..|extraDirs| - 1])
      || exists e :: e in extraDirs[|extraDirs| - 1] && IsMarkdownName(e.name) && f == InfoOf(e, Some("project"))
  {
    var init := extraDirs[..|extraDirs| - 1];
    if FromExtra(f, extraDirs) {
      var i: int, e: DiskEntry :| 0 <= i < |extraDirs| && e in extraDirs[i] && IsMarkdownName(e.name) && f == InfoOf(e, Some("project"));
      if i < |init| {
        assert init[i] == extraDirs[i];
      }
    }
    if FromExtra(f, init) {
      var i: int, e: DiskEntry :| 0 <= i < |init| && e in init[i] && IsMarkdownName(e.name) && f == InfoOf(e, Some("project"));
      assert extraDirs[i] == init[i];
    }
  }

  // ---------------------------------------------------------------------------
  // The disk map
  // ---------------------------------------------------------------------------

  /** The index of the entry with `path`, or -1. */
  function PathIndex(d: seq<FileInfo>, path: string): (i: int)
    ensures -1 <= i < |d|
    ensures i >= 0 ==> d[i].path == path
    ensures i == -1 ==> forall k :: 0 <= k < |d| ==> d[k].path != path
  {
    if |d| == 0 then -1
    else if d[|d| - 1].path == path then |d| - 1
    else PathIndex(d[..|d| - 1], path)
  }

  ghost predicate DistinctPaths(d: seq<FileInfo>) {
    forall i, j :: 0 <= i < j < |d| ==> d[i].path != d[j].path
  }

  /** `dict[fi.path] = fi` on an insertion-ordered dict: a new key goes to
      the end, an existing one keeps its place and takes the new value. */
  function Put(d: seq<FileInfo>, fi: FileInfo): (r: seq<FileInfo>)
    requires DistinctPaths(d)
    ensures DistinctPaths(r)
    ensures fi in r
    ensures forall k :: 0 <= k < |r| && r[k] != fi ==> r[k] in d && r[k].path != fi.path
    ensures forall k :: 0 <= k < |d| && d[k].path != fi.path ==> d[k] in r
  {
    var i := PathIndex(d, fi.path);
    if i < 0 then d + [fi]
    else
      var r := d[i := fi];
      assert r[i] == fi;
      assert forall k :: 0 <= k < |d| && k != i ==> r[k] == d[k] && d[k].path != fi.path;
      assert forall k :: 0 <= k < |d| && d[k].path != fi.path ==> r[k] == d[k];
      r
  }

  /** `{fi["path"]: fi for fi in files}`: one entry per path, the last
      file listed with it, in order of first appearance. */
  function DiskMap(files: seq<FileInfo>): (r: seq<FileInfo>)
    ensures DistinctPaths(r)
    decreases |files|
  {
    if |files| == 0 then [] else Put(DiskMap(files[..|files| - 1]), files[|files| - 1])
  }

  /** The disk map holds, for every path, the last file listed with it. */
  lemma {:induction false} DiskMapLast(files: seq<FileInfo>)
    ensures forall i :: 0 <= i < |files| && (forall j :: i < j < |files| ==> files[j].path != files[i].path) ==> files[i] in DiskMap(files)
    ensures forall f :: f in DiskMap(files) ==> f in files
    decreases |files|
  {
    if |files| > 0 {
      var init := files[..|files| - 1];
      DiskMapLast(init);
      forall i | 0 <= i < |files| - 1 && (forall j :: i < j < |files| ==> files[j].path != files[i].path)
        ensures files[i] in DiskMap(files)
      {
        assert init[i] == files[i];
        assert forall j :: i < j < |init| ==> init[j] == files[j];
        var k :| 0 <= k < |DiskMap(init)| && DiskMap(init)[k] == files[i];
      }
    }
  }

  // ---------------------------------------------------------------------------
  // Indexing and deleting one file
  // ---------------------------------------------------------------------------

  /** `chunk_markdown(content)` with the default budgets, over the text a
      text-mode read yields from the raw content. */
  function FileChunks(content: string): seq<Chunker.Chunk> {
    Chunker.ChunkMarkdown(Newlines(content), Chunker.ChunkSizeTokens, Chunker.ChunkOverlapTokens)
  }

  /** The `chunks` row of the `idx`-th chunk of a file. */
  function RowOf(fileId: nat, idx: nat, c: Chunker.Chunk, embed: string -> Embedding): ChunkRow {
    ChunkRow(fileId, idx, c.text, c.startLine, c.endLine, c.heading, c.tokenCount, embed(c.text))
  }

  /** One iteration of the insert loop of `_index_file`: the chunk row,
      then its vec row under the chunk's new id. */
  function InsertWithVec(d: Db, row: ChunkRow): Result<Db, StoreError> {
    match InsertChunk(d, row)
    case Err(e) => Err(e)
    case Ok((d1, cid)) => InsertVec(d1, cid, row.embedding)
  }

  /** A row goes in under the next chunk id, with nothing else changed,
      provided its file is stored and the next id has no vec row yet. */
  lemma InsertWithVecEffect(d: Db, row: ChunkRow)
    requires row.fileId in FileIds(d) && d.lastChunkId + 1 !in d.vec
    ensures var r := InsertWithVec(d, row);
      && r.Ok?
      && r.value.files == d.files && r.value.meta == d.meta && r.value.lastFileId == d.lastFileId
      && r.value.lastChunkId == d.lastChunkId + 1
      && r.value.chunks == d.chunks[d.lastChunkId + 1 := row]
      && r.value.fts == d.fts[d.lastChunkId + 1 := FtsRow(row.text, row.heading)]
      && r.value.vec == d.vec[d.lastChunkId + 1 := row.embedding]
  {
  }

  /** On a consistent store, a row for a stored file goes in and the store
      stays consistent. */
  lemma InsertWithVecOk(d: Db, row: ChunkRow)
    requires Consistent(d) && row.fileId in FileIds(d)
    ensures InsertWithVec(d, row).Ok? && Consistent(InsertWithVec(d, row).value)
  {
    assert d.lastChunkId + 1 !in d.chunks;
    InsertWithVecEffect(d, row);
    var r := InsertWithVec(d, row).value;
    assert KeysOk(r) by {
      assert FileIds(r) == FileIds(d);
    }
    assert FtsInSync(r);
    assert VecInSync(r);
  }

  /** The insert loop of `_index_file` from chunk `idx` on. */
  function AddChunks(d: Db, fileId: nat, cs: seq<Chunker.Chunk>, idx: nat, embed: string -> Embedding): Result<Db, StoreError>
    requires idx <= |cs|
    decreases |cs| - idx
  {
    if idx == |cs| then Ok(d)
    else
      match InsertWithVec(d, RowOf(fileId, idx, cs[idx], embed))
      case Err(e) => Err(e)
      case Ok(d1) => AddChunks(d1, fileId, cs, idx + 1, embed)
  }

  /** No chunk or vec row sits past the chunk counter, so the next id is
      free in both tables. */
  ghost predicate Fresh(d: Db) {
    && (forall c :: c in d.vec ==> c <= d.lastChunkId)
    && (forall c :: c in d.chunks ==> c <= d.lastChunkId)
  }

  /** One turn of the insert loop: the row for chunk `idx` goes in under
      the next id, and the loop carries on from the resulting store. */
  lemma AddChunksStep(d: Db, fileId: nat, cs: seq<Chunker.Chunk>, idx: nat, embed: string -> Embedding) returns (d1: Db)
    requires fileId in FileIds(d) && idx < |cs| && Fresh(d)
    ensures InsertWithVec(d, RowOf(fileId, idx, cs[idx], embed)) == Ok(d1)
    ensures d1.files == d.files && d1.meta == d.meta && d1.lastFileId == d.lastFileId
    ensures d1.lastChunkId == d.lastChunkId + 1
    ensures d1.chunks == d.chunks[d.lastChunkId + 1 := RowOf(fileId, idx, cs[idx], embed)]
    ensures fileId in FileIds(d1) && Fresh(d1)
    ensures AddChunks(d, fileId, cs, idx, embed) == AddChunks(d1, fileId, cs, idx + 1, embed)
  {
    var row := RowOf(fileId, idx, cs[idx], embed);
    InsertWithVecEffect(d, row);
    d1 := InsertWithVec(d, row).value;
    assert FileIds(d1) == FileIds(d);
  }

  /** For a stored file, the insert loop from chunk `idx` succeeds, leaves
      the files and meta untouched and advances the chunk counter once per
      chunk. */
  lemma {:induction false} AddChunksFrame(d: Db, fileId: nat, cs: seq<Chunker.Chunk>, idx: nat, embed: string -> Embedding)
    requires fileId in FileIds(d) && idx <= |cs| && Fresh(d)
    ensures AddChunks(d, fileId, cs, idx, embed).Ok?
    ensures AddChunks(d, fileId, cs, idx, embed).value.files == d.files
    ensures AddChunks(d, fileId, cs, idx, embed).value.meta == d.meta
    ensures AddChunks(d, fileId, cs, idx, embed).value.lastFileId == d.lastFileId
    ensures AddChunks(d, fileId, cs, idx, embed).value.lastChunkId == d.lastChunkId + (|cs| - idx)
    ensures AddChunks(d, fileId, cs, idx, embed).value.chunks == Extend(d.chunks, d.lastChunkId, fileId, cs, idx, embed)
    decreases |cs| - idx
  {
    if idx < |cs| {
      var d1 := AddChunksStep(d, fileId, cs, idx, embed);
      AddChunksFrame(d1, fileId, cs, idx + 1, embed);
    }
  }

  /** The chunk table after the insert loop from chunk `idx`: each row in
      turn under the id after `last`. */
  function Extend(m: map<nat, ChunkRow>, last: nat, fileId: nat, cs: seq<Chunker.Chunk>, idx: nat, embed: string -> Embedding): map<nat, ChunkRow>
    requires idx <= |cs|
    decreases |cs| - idx
  {
    if idx == |cs| then m
    else Extend(m[last + 1 := RowOf(fileId, idx, cs[idx], embed)], last + 1, fileId, cs, idx + 1, embed)
  }

  /** Extending keeps every existing row and adds exactly the ids past
      `last`. */
  lemma {:induction false} ExtendKeys(m: map<nat, ChunkRow>, last: nat, fileId: nat, cs: seq<Chunker.Chunk>, idx: nat, embed: string -> Embedding)
    requires idx <= |cs| && forall c :: c in m ==> c <= last
    ensures forall c :: c in Extend(m, last, fileId, cs, idx, embed) <==> c in m || last < c <= last + (|cs| - idx)
    ensures forall c :: c in m ==> Extend(m, last, fileId, cs, idx, embed)[c] == m[c]
    decreases |cs| - idx
  {
    if idx < |cs| {
      ExtendKeys(m[last + 1 := RowOf(fileId, idx, cs[idx], embed)], last + 1, fileId, cs, idx + 1, embed);
    }
  }

  /** Extending puts chunk `i` (from `idx` on) under the id `i - idx` past
      `last`. */
  lemma {:induction false} ExtendRow(m: map<nat, ChunkRow>, last: nat, fileId: nat, cs: seq<Chunker.Chunk>, idx: nat, embed: string -> Embedding, i: nat)
    requires idx <= i < |cs| && forall c :: c in m ==> c <= last
    ensures last + 1 + (i - idx) in Extend(m, last, fileId, cs, idx, embed)
    ensures Extend(m, last, fileId, cs, idx, embed)[last + 1 + (i - idx)] == RowOf(fileId, i, cs[i], embed)
    decreases |cs| - idx
  {
    var m1 := m[last + 1 := RowOf(fileId, idx, cs[idx], embed)];
    if i == idx {
      ExtendKeys(m1, last + 1, fileId, cs, idx + 1, embed);
      assert last + 1 in m1;
    } else {
      ExtendRow(m1, last + 1, fileId, cs, idx + 1, embed, i);
    }
  }

  /** On a consistent store and a stored file, the insert loop cannot fail
      and keeps the store consistent. */
  lemma {:induction false} AddChunksOk(d: Db, fileId: nat, cs: seq<Chunker.Chunk>, idx: nat, embed: string -> Embedding)
    requires Consistent(d) && fileId in FileIds(d) && idx <= |cs|
    ensures AddChunks(d, fileId, cs, idx, embed).Ok? && Consistent(AddChunks(d, fileId, cs, idx, embed).value)
    decreases |cs| - idx
  {
    if idx < |cs| {
      InsertWithVecOk(d, RowOf(fileId, idx, cs[idx], embed));
      var d1 := AddChunksStep(d, fileId, cs, idx, embed);
      AddChunksOk(d1, fileId, cs, idx + 1, embed);
    }
  }

  /** `_delete_file(db, path)`: nothing for an unknown path; otherwise the
      file's vec rows first, then the file row, whose deletion cascades to
      its chunks and their FTS rows. */
  function DeleteFile(d: Db, path: string): (r: Db)
    ensures path !in d.files ==> r == d
  {
    if path !in d.files then d
    else
      var id := d.files[path].id;
      DeleteFileRow(DeleteVecOf(d, id), id)
  }

  /** Deleting a file removes that path, and only it, and none of its
      chunks remain; the store stays consistent. */
  lemma DeleteFileOk(d: Db, path: string)
    requires Consistent(d)
    ensures var r := DeleteFile(d, path);
      && Consistent(r)
      && (forall p :: p in r.files <==> p in d.files && p != path)
      && (forall p :: p in r.files ==> r.files[p] == d.files[p])
      && r.meta == d.meta && r.lastFileId == d.lastFileId && r.lastChunkId == d.lastChunkId
      && (path in d.files ==> ChunksOfFile(r, d.files[path].id) == {})
  {
    if path in d.files {
      var id := d.files[path].id;
      var v := DeleteVecOf(d, id);
      var r := DeleteFileRow(v, id);
      assert ChunksOfFile(v, id) == ChunksOfFile(d, id);
      DeleteFileRowCascade(v, id);
      DeleteFileRowFts(v, id);
      forall p | p in r.files
        ensures r.files[p] == d.files[p] && p != path
      {
      }
      forall c | c in r.chunks
        ensures r.chunks[c].fileId in FileIds(r)
      {
        var fid := r.chunks[c].fileId;
        var q :| q in d.files && d.files[q].id == fid;
        assert fid != id;
        assert q in r.files;
      }
      forall c | c in r.chunks
        ensures r.vec[c] == r.chunks[c].embedding
      {
        assert c !in ChunksOfFile(d, id);
      }
    }
  }

  /** `_index_file(db, file_info)`: a file without chunks stores nothing
      and counts 0; otherwise its row goes in with the chunk count, then
      each chunk with its vec row. Returns the chunk count. */
  function IndexFile(d: Db, fi: FileInfo, embed: string -> Embedding): Result<(Db, nat), StoreError> {
    IndexChunks(d, fi, FileChunks(fi.content), embed)
  }

  /** The body of `_index_file` once the content has been chunked into
      `cs`. */
  function IndexChunks(d: Db, fi: FileInfo, cs: seq<Chunker.Chunk>, embed: string -> Embedding): (r: Result<(Db, nat), StoreError>)
    ensures |cs| == 0 ==> r == Ok((d, 0))
    ensures |cs| > 0 && fi.path in d.files ==> r == Err(UniqueViolation)
  {
    if |cs| == 0 then Ok((d, 0))
    else
      match InsertFile(d, fi.path, fi.namespace, fi.agent, fi.mtime, fi.hash, |cs|)
      case Err(e) => Err(e)
      case Ok((d1, id)) =>
        match AddChunks(d1, id, cs, 0, embed)
        case Err(e) => Err(e)
        case Ok(d2) => Ok((d2, |cs|))
  }

  /** The store right after the file row of a new path goes in: the new id
      is stored, and the next chunk ids are free. */
  lemma InsertFileStep(d: Db, fi: FileInfo, n: nat) returns (d1: Db, id: nat)
    requires Consistent(d) && fi.path !in d.files
    ensures InsertFile(d, fi.path, fi.namespace, fi.agent, fi.mtime, fi.hash, n) == Ok((d1, id))
    ensures id == d.lastFileId + 1 && id in FileIds(d1) && id !in FileIds(d)
    ensures Consistent(d1) && Fresh(d1)
    ensures d1.files == d.files[fi.path := FileRow(id, fi.namespace, fi.agent, fi.mtime, fi.hash, n)]
    ensures d1.chunks == d.chunks && d1.meta == d.meta && d1.lastChunkId == d.lastChunkId
  {
    InsertFileKeys(d, fi.path, fi.namespace, fi.agent, fi.mtime, fi.hash, n);
    var r := InsertFile(d, fi.path, fi.namespace, fi.agent, fi.mtime, fi.hash, n).value;
    d1, id := r.0, r.1;
    assert d1.files[fi.path].id == id;
  }

  /** Indexing a new path into a consistent store succeeds, keeps it
      consistent, and adds the file row (with its hash and chunk count)
      exactly when there are chunks. */
  lemma IndexChunksOk(d: Db, fi: FileInfo, cs: seq<Chunker.Chunk>, embed: string -> Embedding)
    requires Consistent(d) && fi.path !in d.files
    ensures IndexChunks(d, fi, cs, embed).Ok?
    ensures Consistent(IndexChunks(d, fi, cs, embed).value.0)
    ensures IndexChunks(d, fi, cs, embed).value.1 == |cs|
    ensures IndexChunks(d, fi, cs, embed).value.0.files ==
      if |cs| == 0 then d.files
      else d.files[fi.path := FileRow(d.lastFileId + 1, fi.namespace, fi.agent, fi.mtime, fi.hash, |cs|)]
    ensures IndexChunks(d, fi, cs, embed).value.0.meta == d.meta
  {
    if |cs| > 0 {
      var d1, id := InsertFileStep(d, fi, |cs|);
      AddChunksOk(d1, id, cs, 0, embed);
      AddChunksFrame(d1, id, cs, 0, embed);
    }
  }

  /** The chunks of a newly indexed file are stored under consecutive new
      ids, with `chunk_index` 0..n-1 in chunker order and the chunk's text,
      lines, heading, token count and embedding. */
  lemma IndexChunksRows(d: Db, fi: FileInfo, cs: seq<Chunker.Chunk>, embed: string -> Embedding, i: nat)
    requires Consistent(d) && fi.path !in d.files && i < |cs|
    ensures IndexChunks(d, fi, cs, embed).Ok?
    ensures d.lastChunkId + 1 + i in IndexChunks(d, fi, cs, embed).value.0.chunks
    ensures IndexChunks(d, fi, cs, embed).value.0.chunks[d.lastChunkId + 1 + i] ==
      ChunkRow(d.lastFileId + 1, i, cs[i].text, cs[i].startLine, cs[i].endLine, cs[i].heading, cs[i].tokenCount, embed(cs[i].text))
  {
    var d1, id := InsertFileStep(d, fi, |cs|);
    AddChunksFrame(d1, id, cs, 0, embed);
    assert IndexChunks(d, fi, cs, embed) == Ok((AddChunks(d1, id, cs, 0, embed).value, |cs|));
    ExtendRow(d1.chunks, d1.lastChunkId, id, cs, 0, embed, i);
  }

  /** Each chunk of a newly indexed file has exactly one vec entry, which
      carries the chunk's embedding. */
  lemma IndexChunksVec(d: Db, fi: FileInfo, cs: seq<Chunker.Chunk>, embed: string -> Embedding, i: nat)
    requires Consistent(d) && fi.path !in d.files && i < |cs|
    ensures IndexChunks(d, fi, cs, embed).Ok?
    ensures d.lastChunkId + 1 + i in IndexChunks(d, fi, cs, embed).value.0.vec
    ensures IndexChunks(d, fi, cs, embed).value.0.vec[d.lastChunkId + 1 + i] == embed(cs[i].text)
  {
    IndexChunksRows(d, fi, cs, embed, i);
    IndexChunksOk(d, fi, cs, embed);
    var r := IndexChunks(d, fi, cs, embed).value.0;
    assert VecInSync(r);
  }

  /** The chunks stored for a newly indexed file are exactly the ids just
      past the old chunk counter, one per chunk. */
  lemma IndexChunksIds(d: Db, fi: FileInfo, cs: seq<Chunker.Chunk>, embed: string -> Embedding)
    requires Consistent(d) && fi.path !in d.files && |cs| > 0
    ensures IndexChunks(d, fi, cs, embed).Ok?
    ensures var r := IndexChunks(d, fi, cs, embed).value.0;
      forall c: nat :: (c in r.chunks && r.chunks[c].fileId == d.lastFileId + 1) <==> d.lastChunkId < c <= d.lastChunkId + |cs|
  {
    IndexChunksOk(d, fi, cs, embed);
    var r := IndexChunks(d, fi, cs, embed).value.0;
    forall c: nat
      ensures (c in r.chunks && r.chunks[c].fileId == d.lastFileId + 1) <==> d.lastChunkId < c <= d.lastChunkId + |cs|
    {
      IndexChunksIdOf(d, fi, cs, embed, c);
    }
  }

  lemma IndexChunksIdOf(d: Db, fi: FileInfo, cs: seq<Chunker.Chunk>, embed: string -> Embedding, c: nat)
    requires Consistent(d) && fi.path !in d.files && |cs| > 0
    ensures IndexChunks(d, fi, cs, embed).Ok?
    ensures var r := IndexChunks(d, fi, cs, embed).value.0;
      (c in r.chunks && r.chunks[c].fileId == d.lastFileId + 1) <==> d.lastChunkId < c <= d.lastChunkId + |cs|
  {
    var d1, id := InsertFileStep(d, fi, |cs|);
    AddChunksFrame(d1, id, cs, 0, embed);
    assert IndexChunks(d, fi, cs, embed) == Ok((AddChunks(d1, id, cs, 0, embed).value, |cs|));
    var r := IndexChunks(d, fi, cs, embed).value.0;
    if d.lastChunkId < c <= d.lastChunkId + |cs| {
      ExtendRow(d1.chunks, d1.lastChunkId, id, cs, 0, embed, c - d.lastChunkId - 1);
    } else {
      ExtendKeys(d1.chunks, d1.lastChunkId, id, cs, 0, embed);
      if c in d1.chunks {
        assert r.chunks[c] == d1.chunks[c];
        assert d1.chunks[c].fileId in FileIds(d);
      }
    }
  }

  // ---------------------------------------------------------------------------
  // The sync diff
  // ---------------------------------------------------------------------------

  /** `SyncStats`; `untouched` is the `unchanged` counter. */
  datatype Stats = Stats(added: nat, updated: nat, deleted: nat, untouched: nat)

  /** `FileNotFoundError` for a missing memory directory, or a failing
      statement. */
  datatype SyncError = MemoryDirNotFound | StoreFailure(error: StoreError)

  /** How the processing loop classifies a path found on disk. */
  datatype Outcome = Added | Updated | Unchanged

  /** `db_map`: the stored hash of every stored path. */
  function StoredHashes(d: Db): (r: map<string, string>)
    ensures r.Keys == d.files.Keys
    ensures forall p :: p in r ==> r[p] == d.files[p].hash
  {
    map p | p in d.files :: d.files[p].hash
  }

  /** The paths of the disk map. */
  function DiskPaths(disk: seq<FileInfo>): set<string> {
    set f | f in disk :: f.path
  }

  /** The deletion loop over the stored paths in `keys` order: each path
      missing from disk is deleted and counted. */
  function DeletePhase(d: Db, keys: seq<string>, disk: set<string>): (Db, nat)
    decreases |keys|
  {
    if |keys| == 0 then (d, 0)
    else
      var d1 := if keys[0] in disk then d else DeleteFile(d, keys[0]);
      var (r, n) := DeletePhase(d1, keys[1..], disk);
      (r, n + if keys[0] in disk then 0 else 1)
  }

  /** The deletion loop keeps the store consistent, removes exactly the
      listed paths missing from disk and leaves every other file row as it
      was. */
  lemma {:induction false} DeletePhaseOk(d: Db, keys: seq<string>, disk: set<string>)
    requires Consistent(d)
    ensures Consistent(DeletePhase(d, keys, disk).0)
    ensures forall p :: p in DeletePhase(d, keys, disk).0.files <==> p in d.files && (p in disk || p !in keys)
    ensures forall p :: p in DeletePhase(d, keys, disk).0.files ==> DeletePhase(d, keys, disk).0.files[p] == d.files[p]
    ensures DeletePhase(d, keys, disk).0.meta == d.meta
    decreases |keys|
  {
    if |keys| > 0 {
      var d1 := if keys[0] in disk then d else DeleteFile(d, keys[0]);
      DeleteFileOk(d, keys[0]);
      DeletePhaseOk(d1, keys[1..], disk);
      assert forall p :: p in keys <==> p == keys[0] || p in keys[1..];
    }
  }

  ghost predicate NoDuplicates(keys: seq<string>) {
    forall i, j :: 0 <= i < j < |keys| ==> keys[i] != keys[j]
  }

  /** Over a listing without repeats, the deletion count is the number of
      listed paths missing from disk. */
  lemma {:induction false} DeletePhaseCount(d: Db, keys: seq<string>, disk: set<string>)
    requires NoDuplicates(keys)
    ensures DeletePhase(d, keys, disk).1 == |(set p | p in keys) - disk|
    decreases |keys|
  {
    if |keys| > 0 {
      var d1 := if keys[0] in disk then d else DeleteFile(d, keys[0]);
      DeletePhaseCount(d1, keys[1..], disk);
      var rest := (set p | p in keys[1..]) - disk;
      assert keys[0] !in keys[1..];
      if keys[0] in disk {
        assert (set p | p in keys) - disk == rest;
      } else {
        assert (set p | p in keys) - disk == rest + {keys[0]};
      }
    }
  }

  /** When every listed path is on disk the deletion loop does nothing. */
  lemma {:induction false} DeletePhaseNone(d: Db, keys: seq<string>, disk: set<string>)
    requires forall k :: 0 <= k < |keys| ==> keys[k] in disk
    ensures DeletePhase(d, keys, disk) == (d, 0)
    decreases |keys|
  {
    if |keys| > 0 {
      DeletePhaseNone(d, keys[1..], disk);
    }
  }

  /** `not force and file_info["hash"] == db_map[rel_path]["hash"]`: a
      stored file the loop leaves as it is. */
  ghost predicate Kept(f: FileInfo, stored: map<string, string>, force: bool) {
    f.path in stored && !force && f.hash == stored[f.path]
  }

  /** One turn of the processing loop: an unchanged stored file is left
      alone, a changed one is deleted and indexed again, a new one is
      indexed. */
  function ProcessFile(d: Db, f: FileInfo, stored: map<string, string>, force: bool, embed: string -> Embedding): Result<(Db, Outcome), StoreError> {
    if f.path in stored then
      if !force && f.hash == stored[f.path] then Ok((d, Unchanged))
      else
        match IndexFile(DeleteFile(d, f.path), f, embed)
        case Err(e) => Err(e)
        case Ok((d1, _)) => Ok((d1, Updated))
    else
      match IndexFile(d, f, embed)
      case Err(e) => Err(e)
      case Ok((d1, _)) => Ok((d1, Added))
  }

  function Tally(s: Stats, o: Outcome): Stats {
    match o
    case Added => s.(added := s.added + 1)
    case Updated => s.(updated := s.updated + 1)
    case Unchanged => s.(untouched := s.untouched + 1)
  }

  /** The processing loop over the disk map, counting into `s`. */
  function ProcessPhase(d: Db, disk: seq<FileInfo>, stored: map<string, string>, force: bool, embed: string -> Embedding, s: Stats): Result<(Db, Stats), StoreError>
    decreases |disk|
  {
    if |disk| == 0 then Ok((d, s))
    else
      match ProcessFile(d, disk[0], stored, force, embed)
      case Err(e) => Err(e)
      case Ok((d1, o)) => ProcessPhase(d1, disk[1..], stored, force, embed, Tally(s, o))
  }

  /** The stored hashes agree with the store on path `p`. */
  ghost predicate AgreesAt(d: Db, stored: map<string, string>, p: string) {
    && (p in d.files <==> p in stored)
    && (p in d.files ==> d.files[p].hash == stored[p])
  }

  /** One turn of the loop succeeds, keeps the store consistent and
      classifies the path: added when not stored, unchanged when kept,
      updated otherwise. */
  lemma ProcessFileOk(d: Db, f: FileInfo, stored: map<string, string>, force: bool, embed: string -> Embedding)
    requires Consistent(d) && AgreesAt(d, stored, f.path)
    ensures ProcessFile(d, f, stored, force, embed).Ok?
    ensures Consistent(ProcessFile(d, f, stored, force, embed).value.0)
    ensures ProcessFile(d, f, stored, force, embed).value.0.meta == d.meta
    ensures ProcessFile(d, f, stored, force, embed).value.1 ==
      if f.path !in stored then Added else if Kept(f, stored, force) then Unchanged else Updated
  {
    if f.path in stored && !Kept(f, stored, force) {
      DeleteFileOk(d, f.path);
      IndexChunksOk(DeleteFile(d, f.path), f, FileChunks(f.content), embed);
    } else if f.path !in stored {
      IndexChunksOk(d, f, FileChunks(f.content), embed);
    }
  }

  /** `r` holds the rows of `d` on every path but `f`'s, and a row for
      `f`'s path, with its disk hash, exactly when `present`. */
  ghost predicate Touched(d: Db, r: Db, f: FileInfo, present: bool) {
    && (forall p :: p != f.path ==> (p in r.files <==> p in d.files) && (p in r.files ==> r.files[p] == d.files[p]))
    && (f.path in r.files <==> present)
    && (f.path in r.files ==> r.files[f.path].hash == f.hash)
  }

  /** Indexing a path the store does not hold adds its row, with the disk
      hash, exactly when its content has chunks, and touches nothing else. */
  lemma IndexFileTouched(d: Db, f: FileInfo, embed: string -> Embedding)
    requires Consistent(d) && f.path !in d.files
    ensures IndexFile(d, f, embed).Ok?
    ensures Touched(d, IndexFile(d, f, embed).value.0, f, |FileChunks(f.content)| > 0)
  {
    var cs := FileChunks(f.content);
    IndexChunksOk(d, f, cs, embed);
    assert IndexFile(d, f, embed) == IndexChunks(d, f, cs, embed);
  }

  /** Deleting a path and indexing it again leaves a row for it exactly
      when its content has chunks, and touches nothing else. */
  lemma ReindexTouched(d: Db, f: FileInfo, embed: string -> Embedding)
    requires Consistent(d)
    ensures IndexFile(DeleteFile(d, f.path), f, embed).Ok?
    ensures Touched(d, IndexFile(DeleteFile(d, f.path), f, embed).value.0, f, |FileChunks(f.content)| > 0)
  {
    DeleteFileOk(d, f.path);
    IndexFileTouched(DeleteFile(d, f.path), f, embed);
  }

  /** One turn of the loop touches only its own path, which stays stored,
      with the disk hash, exactly when it is kept or has chunks. */
  lemma ProcessFileFiles(d: Db, f: FileInfo, stored: map<string, string>, force: bool, embed: string -> Embedding)
    requires Consistent(d) && AgreesAt(d, stored, f.path)
    ensures ProcessFile(d, f, stored, force, embed).Ok?
    ensures var r := ProcessFile(d, f, stored, force, embed).value.0;
      forall p :: p != f.path ==> (p in r.files <==> p in d.files) && (p in r.files ==> r.files[p] == d.files[p])
    ensures var r := ProcessFile(d, f, stored, force, embed).value.0;
      && (f.path in r.files <==> Kept(f, stored, force) || |FileChunks(f.content)| > 0)
      && (f.path in r.files ==> r.files[f.path].hash == f.hash)
  {
    if f.path in stored && !Kept(f, stored, force) {
      ReindexTouched(d, f, embed);
    } else if f.path !in stored {
      IndexFileTouched(d, f, embed);
    }
  }

  /** The stored hashes agree with the store on every path still to be
      processed. */
  ghost predicate Agrees(d: Db, disk: seq<FileInfo>, stored: map<string, string>) {
    forall k :: 0 <= k < |disk| ==> AgreesAt(d, stored, disk[k].path)
  }

  /** The rest of the loop still sees a store that agrees with the stored
      hashes, since each turn touches only its own path. */
  lemma ProcessStep(d: Db, disk: seq<FileInfo>, stored: map<string, string>, force: bool, embed: string -> Embedding) returns (d1: Db)
    requires Consistent(d) && DistinctPaths(disk) && Agrees(d, disk, stored) && |disk| > 0
    ensures ProcessFile(d, disk[0], stored, force, embed).Ok? && ProcessFile(d, disk[0], stored, force, embed).value.0 == d1
    ensures Consistent(d1) && DistinctPaths(disk[1..]) && Agrees(d1, disk[1..], stored)
  {
    ProcessFileOk(d, disk[0], stored, force, embed);
    ProcessFileFiles(d, disk[0], stored, force, embed);
    d1 := ProcessFile(d, disk[0], stored, force, embed).value.0;
    forall k | 0 <= k < |disk[1..]|
      ensures AgreesAt(d1, stored, disk[1..][k].path)
    {
      assert disk[1..][k] == disk[k + 1];
      assert AgreesAt(d, stored, disk[k + 1].path);
    }
  }

  /** The processing loop succeeds on a consistent store whose stored
      hashes agree with it, and keeps it consistent. */
  lemma {:induction false} ProcessPhaseOk(d: Db, disk: seq<FileInfo>, stored: map<string, string>, force: bool, embed: string -> Embedding, s: Stats)
    requires Consistent(d) && DistinctPaths(disk) && Agrees(d, disk, stored)
    ensures ProcessPhase(d, disk, stored, force, embed, s).Ok?
    ensures Consistent(ProcessPhase(d, disk, stored, force, embed, s).value.0)
    ensures ProcessPhase(d, disk, stored, force, embed, s).value.0.meta == d.meta
    decreases |disk|
  {
    if |disk| > 0 {
      var d1 := ProcessStep(d, disk, stored, force, embed);
      ProcessFileOk(d, disk[0], stored, force, embed);
      var o := ProcessFile(d, disk[0], stored, force, embed).value.1;
      ProcessPhaseOk(d1, disk[1..], stored, force, embed, Tally(s, o));
    }
  }

  /** The processing loop leaves the row of every path not on disk as it
      was. */
  lemma {:induction false} ProcessPhaseFrame(d: Db, disk: seq<FileInfo>, stored: map<string, string>, force: bool, embed: string -> Embedding, s: Stats, p: string)
    requires Consistent(d) && DistinctPaths(disk) && Agrees(d, disk, stored)
    requires forall k :: 0 <= k < |disk| ==> disk[k].path != p
    ensures ProcessPhase(d, disk, stored, force, embed, s).Ok?
    ensures p in ProcessPhase(d, disk, stored, force, embed, s).value.0.files <==> p in d.files
    ensures p in d.files ==> ProcessPhase(d, disk, stored, force, embed, s).value.0.files[p] == d.files[p]
    decreases |disk|
  {
    ProcessPhaseOk(d, disk, stored, force, embed, s);
    if |disk| > 0 {
      var d1 := ProcessStep(d, disk, stored, force, embed);
      ProcessFileFiles(d, disk[0], stored, force, embed);
      var o := ProcessFile(d, disk[0], stored, force, embed).value.1;
      assert forall k :: 0 <= k < |disk[1..]| ==> disk[1..][k] == disk[k + 1];
      ProcessPhaseFrame(d1, disk[1..], stored, force, embed, Tally(s, o), p);
    }
  }

  /** One unfolding of the processing loop: the first turn succeeds and
      the rest of the loop runs on a store that still agrees with the
      stored hashes. */
  lemma ProcessUnfold(d: Db, disk: seq<FileInfo>, stored: map<string, string>, force: bool, embed: string -> Embedding, s: Stats) returns (d1: Db, o: Outcome)
    requires Consistent(d) && DistinctPaths(disk) && Agrees(d, disk, stored) && |disk| > 0
    ensures Consistent(d1) && DistinctPaths(disk[1..]) && Agrees(d1, disk[1..], stored)
    ensures ProcessPhase(d, disk, stored, force, embed, s) == ProcessPhase(d1, disk[1..], stored, force, embed, Tally(s, o))
  {
    d1 := ProcessStep(d, disk, stored, force, embed);
    o := ProcessFile(d, disk[0], stored, force, embed).value.1;
  }

  /** The row of `f`'s path in `r` is there, with the disk hash, exactly
      when `f` was kept or its content has chunks. */
  ghost predicate StoredAfter(r: Db, f: FileInfo, stored: map<string, string>, force: bool) {
    && (f.path in r.files <==> Kept(f, stored, force) || |FileChunks(f.content)| > 0)
    && (f.path in r.files ==> r.files[f.path].hash == f.hash)
  }

  /** After the processing loop the first disk path is stored as its own
      turn decided: the later turns leave its row alone. */
  lemma ProcessPhaseFirst(d: Db, disk: seq<FileInfo>, stored: map<string, string>, force: bool, embed: string -> Embedding, s: Stats)
    requires Consistent(d) && DistinctPaths(disk) && Agrees(d, disk, stored) && |disk| > 0
    ensures ProcessPhase(d, disk, stored, force, embed, s).Ok?
    ensures StoredAfter(ProcessPhase(d, disk, stored, force, embed, s).value.0, disk[0], stored, force)
  {
    var d1 := ProcessStep(d, disk, stored, force, embed);
    ProcessFileFiles(d, disk[0], stored, force, embed);
    var o := ProcessFile(d, disk[0], stored, force, embed).value.1;
    assert ProcessPhase(d, disk, stored, force, embed, s) == ProcessPhase(d1, disk[1..], stored, force, embed, Tally(s, o));
    assert forall j :: 0 <= j < |disk[1..]| ==> disk[1..][j] == disk[j + 1];
    ProcessPhaseFrame(d1, disk[1..], stored, force, embed, Tally(s, o), disk[0].path);
  }

  /** After the processing loop a disk path is stored, with its disk
      hash, exactly when it was kept or its content has chunks. */
  lemma {:induction false} ProcessPhaseFiles(d: Db, disk: seq<FileInfo>, stored: map<string, string>, force: bool, embed: string -> Embedding, s: Stats, k: nat)
    requires Consistent(d) && DistinctPaths(disk) && Agrees(d, disk, stored) && k < |disk|
    ensures ProcessPhase(d, disk, stored, force, embed, s).Ok?
    ensures StoredAfter(ProcessPhase(d, disk, stored, force, embed, s).value.0, disk[k], stored, force)
    decreases |disk|
  {
    if k == 0 {
      ProcessPhaseFirst(d, disk, stored, force, embed, s);
    } else {
      var d1, o := ProcessUnfold(d, disk, stored, force, embed, s);
      ProcessPhaseFiles(d1, disk[1..], stored, force, embed, Tally(s, o), k - 1);
      assert disk[1..][k - 1] == disk[k];
    }
  }

  /** Whenever the processing loop succeeds, every disk path is counted
      once, as added, updated or unchanged, the deletion count is left
      alone, and with `force` nothing counts as unchanged. */
  lemma {:induction false} ProcessPhaseCounts(d: Db, disk: seq<FileInfo>, stored: map<string, string>, force: bool, embed: string -> Embedding, s: Stats)
    ensures var r := ProcessPhase(d, disk, stored, force, embed, s);
      r.Ok? ==> r.value.1.added + r.value.1.updated + r.value.1.untouched == s.added + s.updated + s.untouched + |disk|
    ensures var r := ProcessPhase(d, disk, stored, force, embed, s);
      r.Ok? ==> r.value.1.deleted == s.deleted && (force ==> r.value.1.untouched == s.untouched)
    decreases |disk|
  {
    if |disk| > 0 && ProcessPhase(d, disk, stored, force, embed, s).Ok? {
      var d1, o := ProcessTurn(d, disk, stored, force, embed, s);
      ProcessPhaseCounts(d1, disk[1..], stored, force, embed, Tally(s, o));
    }
  }

  /** A successful processing loop took a successful first turn, which
      counts its file once and, with `force`, never as unchanged. */
  lemma ProcessTurn(d: Db, disk: seq<FileInfo>, stored: map<string, string>, force: bool, embed: string -> Embedding, s: Stats) returns (d1: Db, o: Outcome)
    requires |disk| > 0 && ProcessPhase(d, disk, stored, force, embed, s).Ok?
    ensures ProcessPhase(d, disk, stored, force, embed, s) == ProcessPhase(d1, disk[1..], stored, force, embed, Tally(s, o))
    ensures force ==> o != Unchanged
    ensures var t := Tally(s, o);
      t.added + t.updated + t.untouched == s.added + s.updated + s.untouched + 1
      && t.deleted == s.deleted && (force ==> t.untouched == s.untouched)
  {
    d1, o := ProcessFile(d, disk[0], stored, force, embed).value.0, ProcessFile(d, disk[0], stored, force, embed).value.1;
  }

  /** The paths of a disk map are its first path and, apart from it, the
      paths of the rest. */
  lemma DiskPathsCons(disk: seq<FileInfo>)
    requires DistinctPaths(disk) && |disk| > 0
    ensures DiskPaths(disk) == DiskPaths(disk[1..]) + {disk[0].path}
    ensures disk[0].path !in DiskPaths(disk[1..])
    ensures DistinctPaths(disk[1..])
  {
    var rest := disk[1..];
    assert forall g :: g in disk <==> g == disk[0] || g in rest;
    forall g | g in rest
      ensures g.path != disk[0].path
    {
      var k :| 0 <= k < |rest| && rest[k] == g;
      assert disk[k + 1] == g;
    }
  }

  /** Adding one new element to a set adds it to exactly one of its parts
      inside and outside `keys`. */
  lemma SplitCount<T>(a: set<T>, x: T, keys: set<T>)
    requires x !in a
    ensures x in keys ==> |(a + {x}) - keys| == |a - keys| && |(a + {x}) * keys| == |a * keys| + 1
    ensures x !in keys ==> |(a + {x}) - keys| == |a - keys| + 1 && |(a + {x}) * keys| == |a * keys|
  {
    if x in keys {
      assert (a + {x}) - keys == a - keys;
      assert (a + {x}) * keys == (a * keys) + {x};
    } else {
      assert (a + {x}) - keys == (a - keys) + {x};
      assert (a + {x}) * keys == a * keys;
    }
  }

  /** Without `force`, a file stored with its disk hash is unchanged, and
      an unstored file without chunks is added without changing the
      store. */
  lemma ProcessFileSteady(d: Db, f: FileInfo, stored: map<string, string>, embed: string -> Embedding)
    requires || (f.path in stored && stored[f.path] == f.hash)
             || (f.path !in stored && |FileChunks(f.content)| == 0)
    ensures ProcessFile(d, f, stored, false, embed) == Ok((d, if f.path in stored then Unchanged else Added))
  {
    if f.path !in stored {
      var cs := FileChunks(f.content);
      assert IndexFile(d, f, embed) == IndexChunks(d, f, cs, embed) == Ok((d, 0));
    }
  }

  /** The number of disk entries whose path is not in `keys`. */
  function CountNew(disk: seq<FileInfo>, keys: set<string>): (n: nat)
    ensures n <= |disk|
  {
    if |disk| == 0 then 0 else (if disk[0].path in keys then 0 else 1) + CountNew(disk[1..], keys)
  }

  /** Over distinct paths, the entries not in `keys` are as many as the
      disk paths outside `keys`, and the others as many as those inside. */
  lemma {:induction false} CountNewCard(disk: seq<FileInfo>, keys: set<string>)
    requires DistinctPaths(disk)
    ensures CountNew(disk, keys) == |DiskPaths(disk) - keys|
    ensures |disk| - CountNew(disk, keys) == |DiskPaths(disk) * keys|
    decreases |disk|
  {
    if |disk| == 0 {
      assert DiskPaths(disk) == {};
    } else {
      DiskPathsCons(disk);
      CountNewCard(disk[1..], keys);
      SplitCount(DiskPaths(disk[1..]), disk[0].path, keys);
    }
  }

  /** Over a disk whose every path is either stored with its disk hash or
      unstored and without chunks, the loop without `force` changes
      nothing: the stored paths count as unchanged and the others, once
      more, as added. */
  lemma {:induction false} ProcessPhaseSteady(d: Db, disk: seq<FileInfo>, stored: map<string, string>, embed: string -> Embedding, s: Stats)
    requires forall k :: 0 <= k < |disk| ==>
      || (disk[k].path in stored && stored[disk[k].path] == disk[k].hash)
      || (disk[k].path !in stored && |FileChunks(disk[k].content)| == 0)
    ensures ProcessPhase(d, disk, stored, false, embed, s) ==
      Ok((d, Stats(s.added + CountNew(disk, stored.Keys), s.updated, s.deleted, s.untouched + (|disk| - CountNew(disk, stored.Keys)))))
    decreases |disk|
  {
    if |disk| > 0 {
      var f := disk[0];
      var o := if f.path in stored then Unchanged else Added;
      ProcessFileSteady(d, f, stored, embed);
      var rest := disk[1..];
      assert forall k :: 0 <= k < |rest| ==> rest[k] == disk[k + 1];
      assert ProcessPhase(d, disk, stored, false, embed, s) == ProcessPhase(d, rest, stored, false, embed, Tally(s, o));
      ProcessPhaseSteady(d, rest, stored, embed, Tally(s, o));
    }
  }

  /** `sync(project_root, force=...)` over the scanned disk files, with
      `dbOrder` the order in which the stored paths are read back. A
      missing memory directory fails before the store is touched. */
  function Sync(d: Db, memoryDirExists: bool, diskFiles: seq<FileInfo>, dbOrder: seq<string>, force: bool, embed: string -> Embedding): (r: Result<(Db, Stats), SyncError>)
    ensures r == Err(MemoryDirNotFound) <==> !memoryDirExists
  {
    if !memoryDirExists then Err(MemoryDirNotFound)
    else
      var d0 := InitDb(d);
      var disk := DiskMap(diskFiles);
      var (d1, deleted) := DeletePhase(d0, dbOrder, DiskPaths(disk));
      match ProcessPhase(d1, disk, StoredHashes(d0), force, embed, Stats(0, 0, deleted, 0))
      case Err(e) => Err(StoreFailure(e))
      case Ok(res) => Ok(res)
  }

  /** The stored paths, each listed once, in the order `dbOrder`. */
  ghost predicate ListsStored(dbOrder: seq<string>, d: Db) {
    NoDuplicates(dbOrder) && forall p :: p in dbOrder <==> p in d.files
  }

  /** The state `sync` reaches before its processing loop: the store after
      `init_db` and the deletion loop, and what that loop counted. */
  lemma SyncSetup(d: Db, disk: seq<FileInfo>, dbOrder: seq<string>) returns (d0: Db, d1: Db, deleted: nat)
    requires Consistent(d) && ListsStored(dbOrder, d)
    ensures d0 == InitDb(d) && d0.files == d.files
    ensures (d1, deleted) == DeletePhase(d0, dbOrder, DiskPaths(disk))
    ensures Consistent(d1) && Agrees(d1, disk, StoredHashes(d0))
    ensures forall p :: p in d1.files ==> p in DiskPaths(disk)
    ensures d1.meta == d0.meta
  {
    d0 := InitDb(d);
    InitDbConsistent(d);
    d1, deleted := DeletePhase(d0, dbOrder, DiskPaths(disk)).0, DeletePhase(d0, dbOrder, DiskPaths(disk)).1;
    DeletePhaseOk(d0, dbOrder, DiskPaths(disk));
    DeletedAgrees(d0, d1, disk, dbOrder);
  }

  /** A store whose paths are the original ones minus those missing from
      disk agrees, on every disk path, with the original stored hashes. */
  lemma DeletedAgrees(d0: Db, d1: Db, disk: seq<FileInfo>, dbOrder: seq<string>)
    requires forall p :: p in d1.files <==> p in d0.files && (p in DiskPaths(disk) || p !in dbOrder)
    requires forall p :: p in d1.files ==> d1.files[p] == d0.files[p]
    ensures Agrees(d1, disk, StoredHashes(d0))
  {
    var stored := StoredHashes(d0);
    forall k | 0 <= k < |disk|
      ensures AgreesAt(d1, stored, disk[k].path)
    {
      assert disk[k].path in DiskPaths(disk);
    }
  }

  /** The deletion loop of `sync` counts the stored paths missing from
      disk. */
  lemma SyncDeleted(d: Db, disk: seq<FileInfo>, dbOrder: seq<string>)
    requires ListsStored(dbOrder, d)
    ensures DeletePhase(InitDb(d), dbOrder, DiskPaths(disk)).1 == |d.files.Keys - DiskPaths(disk)|
  {
    DeletePhaseCount(InitDb(d), dbOrder, DiskPaths(disk));
    assert (set p | p in dbOrder) == d.files.Keys;
  }

  /** On a consistent store, with the stored paths read back each once,
      `sync` succeeds and leaves the store consistent. */
  lemma SyncOk(d: Db, diskFiles: seq<FileInfo>, dbOrder: seq<string>, force: bool, embed: string -> Embedding)
    requires Consistent(d) && ListsStored(dbOrder, d)
    ensures Sync(d, true, diskFiles, dbOrder, force, embed).Ok?
    ensures Consistent(Sync(d, true, diskFiles, dbOrder, force, embed).value.0)
    ensures Sync(d, true, diskFiles, dbOrder, force, embed).value.0.meta == InitDb(d).meta
  {
    var d0, d1, deleted := SyncSetup(d, DiskMap(diskFiles), dbOrder);
    ProcessPhaseOk(d1, DiskMap(diskFiles), StoredHashes(d0), force, embed, Stats(0, 0, deleted, 0));
  }

  /** `not force and file_info["hash"] == db_map[rel_path]["hash"]`, read
      against the store `sync` starts from. */
  ghost predicate Keeps(d: Db, f: FileInfo, force: bool) {
    f.path in d.files && !force && d.files[f.path].hash == f.hash
  }

  /** After `sync` a disk path is stored, with its disk hash, exactly when
      it was kept or its content yields at least one chunk. */
  lemma SyncFiles(d: Db, diskFiles: seq<FileInfo>, dbOrder: seq<string>, force: bool, embed: string -> Embedding, f: FileInfo)
    requires Consistent(d) && ListsStored(dbOrder, d) && f in DiskMap(diskFiles)
    ensures Sync(d, true, diskFiles, dbOrder, force, embed).Ok?
    ensures var r := Sync(d, true, diskFiles, dbOrder, force, embed).value.0;
      && (f.path in r.files <==> Keeps(d, f, force) || |FileChunks(f.content)| > 0)
      && (f.path in r.files ==> r.files[f.path].hash == f.hash)
  {
    SyncOk(d, diskFiles, dbOrder, force, embed);
    var disk := DiskMap(diskFiles);
    var d0, d1, deleted := SyncSetup(d, disk, dbOrder);
    var k :| 0 <= k < |disk| && disk[k] == f;
    ProcessPhaseFiles(d1, disk, StoredHashes(d0), force, embed, Stats(0, 0, deleted, 0), k);
  }

  /** After `sync` every stored path is a disk path. */
  lemma SyncNoStray(d: Db, diskFiles: seq<FileInfo>, dbOrder: seq<string>, force: bool, embed: string -> Embedding, p: string)
    requires Consistent(d) && ListsStored(dbOrder, d)
    ensures Sync(d, true, diskFiles, dbOrder, force, embed).Ok?
    ensures p in Sync(d, true, diskFiles, dbOrder, force, embed).value.0.files ==> p in DiskPaths(DiskMap(diskFiles))
  {
    SyncOk(d, diskFiles, dbOrder, force, embed);
    var disk := DiskMap(diskFiles);
    var d0, d1, deleted := SyncSetup(d, disk, dbOrder);
    if p !in DiskPaths(disk) {
      forall k | 0 <= k < |disk|
        ensures disk[k].path != p
      {
        assert disk[k].path in DiskPaths(disk);
      }
      ProcessPhaseFrame(d1, disk, StoredHashes(d0), force, embed, Stats(0, 0, deleted, 0), p);
    }
  }

  /** `sync` counts every disk path once, as added, updated or unchanged,
      counts as deleted the stored paths missing from disk, and with
      `force` counts nothing as unchanged. */
  lemma SyncCounts(d: Db, diskFiles: seq<FileInfo>, dbOrder: seq<string>, force: bool, embed: string -> Embedding)
    requires Consistent(d) && ListsStored(dbOrder, d)
    ensures Sync(d, true, diskFiles, dbOrder, force, embed).Ok?
    ensures var t := Sync(d, true, diskFiles, dbOrder, force, embed).value.1;
      && t.added + t.updated + t.untouched == |DiskMap(diskFiles)|
      && t.deleted == |d.files.Keys - DiskPaths(DiskMap(diskFiles))|
      && (force ==> t.untouched == 0)
  {
    SyncOk(d, diskFiles, dbOrder, force, embed);
    var d0, d1, deleted := SyncSetup(d, DiskMap(diskFiles), dbOrder);
    SyncDeleted(d, DiskMap(diskFiles), dbOrder);
    ProcessPhaseCounts(d1, DiskMap(diskFiles), StoredHashes(d0), force, embed, Stats(0, 0, deleted, 0));
  }

  /** A second `sync` without `force` over the same disk changes nothing:
      no path is updated or deleted, the stored paths count as unchanged,
      and the disk paths left unstored (those without chunks) are counted
      as added again. */
  lemma SyncIdempotent(d: Db, diskFiles: seq<FileInfo>, dbOrder: seq<string>, force: bool, embed: string -> Embedding, dbOrder2: seq<string>)
    requires Consistent(d) && ListsStored(dbOrder, d)
    requires Sync(d, true, diskFiles, dbOrder, force, embed).Ok?
    requires ListsStored(dbOrder2, Sync(d, true, diskFiles, dbOrder, force, embed).value.0)
    ensures var r1 := Sync(d, true, diskFiles, dbOrder, force, embed).value.0;
      var paths := DiskPaths(DiskMap(diskFiles));
      Sync(r1, true, diskFiles, dbOrder2, false, embed) ==
        Ok((r1, Stats(|paths - r1.files.Keys|, 0, 0, |paths * r1.files.Keys|)))
  {
    SyncOk(d, diskFiles, dbOrder, force, embed);
    var r1 := Sync(d, true, diskFiles, dbOrder, force, embed).value.0;
    var disk := DiskMap(diskFiles);
    InitDbNoop(r1);
    forall k | 0 <= k < |dbOrder2|
      ensures dbOrder2[k] in DiskPaths(disk)
    {
      SyncNoStray(d, diskFiles, dbOrder, force, embed, dbOrder2[k]);
    }
    DeletePhaseNone(r1, dbOrder2, DiskPaths(disk));
    var stored := StoredHashes(r1);
    forall k | 0 <= k < |disk|
      ensures || (disk[k].path in stored && stored[disk[k].path] == disk[k].hash)
              || (disk[k].path !in stored && |FileChunks(disk[k].content)| == 0)
    {
      SyncFiles(d, diskFiles, dbOrder, force, embed, disk[k]);
    }
    ProcessPhaseSteady(r1, disk, stored, embed, Stats(0, 0, 0, 0));
    CountNewCard(disk, stored.Keys);
  }
}
