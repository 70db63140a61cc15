/** The SQLite index of the memory subsystem as an abstract store: the
    `files`, `chunks`, `chunks_vec`, `chunks_fts` and `meta` tables, with
    the semantics the schema gives them.

    - `files` is keyed by its UNIQUE `path`; its `id` comes from an
      AUTOINCREMENT counter, so ids are never reused.
    - `chunks` is keyed by its AUTOINCREMENT id and refers to a file id;
      with foreign keys on, deleting a file row deletes its chunks.
    - `chunks_fts` is kept in lockstep with `chunks` by the insert, delete
      and update triggers.
    - `chunks_vec` has no foreign key: its rows go only when deleted
      explicitly. */
module Store {
  import opened Base

  const EmbeddingModel: string := "all-MiniLM-L6-v2"
  const EmbeddingDim: nat := 384

  /** An embedding vector, as stored in the `embedding` BLOB columns. */
  type Embedding = seq<real>

  datatype FileRow = FileRow(id: nat, namespace: string, agent: Option<string>, mtime: real, hash: string, chunkCount: nat)

  datatype ChunkRow = ChunkRow(
    fileId: nat, chunkIndex: nat, text: string, startLine: int, endLine: int,
    heading: Option<string>, tokenCount: int, embedding: Embedding)

  /** A row of the external-content FTS table: the indexed columns. */
  datatype FtsRow = FtsRow(text: string, heading: Option<string>)

  /** The database. `lastFileId` and `lastChunkId` are the AUTOINCREMENT
      counters (the largest id ever handed out). */
  datatype Db = Db(
    files: map<string, FileRow>,
    chunks: map<nat, ChunkRow>,
    vec: map<nat, Embedding>,
    fts: map<nat, FtsRow>,
    meta: map<string, string>,
    lastFileId: nat,
    lastChunkId: nat)

  /** The constraint failures SQLite raises for the statements modelled. */
  datatype StoreError = UniqueViolation | ForeignKeyViolation | PrimaryKeyViolation

  /** A database file just created: every table empty. */
  function EmptyDb(): Db {
    Db(map[], map[], map[], map[], map[], 0, 0)
  }

  // ---------------------------------------------------------------------------
  // Initialisation
  // ---------------------------------------------------------------------------

  /** The `meta` rows `init_db` inserts when missing. */
  function MetaDefaults(): seq<(string, string)> {
    [("schema_version", "1"), ("embedding_model", EmbeddingModel), ("embedding_dim", "384")]
  }

  /** `INSERT OR IGNORE INTO meta (key, value)` for each pair in turn. */
  function InsertOrIgnore(meta: map<string, string>, pairs: seq<(string, string)>): (r: map<string, string>)
    ensures forall k :: k in meta ==> k in r && r[k] == meta[k]
    ensures forall i :: 0 <= i < |pairs| ==> pairs[i].0 in r
    ensures forall k :: k in r ==> k in meta || exists i :: 0 <= i < |pairs| && pairs[i].0 == k
    decreases |pairs|
  {
    if |pairs| == 0 then meta
    else
      var m := if pairs[0].0 in meta then meta else meta[pairs[0].0 := pairs[0].1];
      var r := InsertOrIgnore(m, pairs[1..]);
      assert forall i :: 0 < i < |pairs| ==> pairs[i] == pairs[1..][i - 1];
      r
  }

  /** `init_db` on an existing or new database: the schema statements are
      all `IF NOT EXISTS`, so only the missing meta defaults change
      anything. */
  function InitDb(d: Db): (r: Db)
    ensures r.files == d.files && r.chunks == d.chunks && r.vec == d.vec && r.fts == d.fts
    ensures r.lastFileId == d.lastFileId && r.lastChunkId == d.lastChunkId
    ensures forall k :: k in d.meta ==> k in r.meta && r.meta[k] == d.meta[k]
    ensures "schema_version" in r.meta && "embedding_model" in r.meta && "embedding_dim" in r.meta
    ensures forall k :: k in r.meta ==> k in d.meta || k in {"schema_version", "embedding_model", "embedding_dim"}
  {
    var r := d.(meta := InsertOrIgnore(d.meta, MetaDefaults()));
    assert MetaDefaults()[0].0 == "schema_version" && MetaDefaults()[1].0 == "embedding_model" && MetaDefaults()[2].0 == "embedding_dim";
    r
  }

  /** Initialising a store that already holds the three meta keys changes
      nothing. */
  lemma InitDbNoop(d: Db)
    requires "schema_version" in d.meta && "embedding_model" in d.meta && "embedding_dim" in d.meta
    ensures InitDb(d) == d
  {
    assert InitDb(d).meta == d.meta by {
      assert forall k :: k in InitDb(d).meta ==> k in d.meta;
    }
  }

  /** Initialising twice is initialising once. */
  lemma InitDbIdempotent(d: Db)
    ensures InitDb(InitDb(d)) == InitDb(d)
  {
    InitDbNoop(InitDb(d));
  }

  /** A fresh database gets exactly the three defaults. */
  lemma InitDbFresh()
    ensures InitDb(EmptyDb()).meta == map["schema_version" := "1", "embedding_model" := EmbeddingModel, "embedding_dim" := "384"]
  {
  }

  // ---------------------------------------------------------------------------
  // Statements
  // ---------------------------------------------------------------------------

  /** The ids of the stored files. */
  function FileIds(d: Db): set<nat> {
    set p | p in d.files :: d.files[p].id
  }

  /** The ids of the chunks that refer to file `id`. */
  function ChunksOfFile(d: Db, id: nat): set<nat> {
    set c | c in d.chunks && d.chunks[c].fileId == id
  }

  /** `INSERT INTO files (...)`: fails on a path already stored (UNIQUE),
      otherwise stores the row under the next AUTOINCREMENT id and returns
      that id (`lastrowid`). */
  function InsertFile(d: Db, path: string, namespace: string, agent: Option<string>, mtime: real, hash: string, chunkCount: nat): (r: Result<(Db, nat), StoreError>)
    ensures r.Err? <==> path in d.files
    ensures r.Ok? ==> var (e, id) := r.value;
      && id == d.lastFileId + 1 == e.lastFileId
      && e.files == d.files[path := FileRow(id, namespace, agent, mtime, hash, chunkCount)]
      && e.chunks == d.chunks && e.vec == d.vec && e.fts == d.fts && e.meta == d.meta && e.lastChunkId == d.lastChunkId
  {
    if path in d.files then Err(UniqueViolation)
    else
      var id := d.lastFileId + 1;
      Ok((d.(files := d.files[path := FileRow(id, namespace, agent, mtime, hash, chunkCount)], lastFileId := id), id))
  }

  /** `INSERT INTO chunks (...)`: fails when the file id refers to no file
      (foreign key), otherwise stores the row under the next id; the
      `chunks_ai` trigger adds its FTS row. */
  function InsertChunk(d: Db, row: ChunkRow): (r: Result<(Db, nat), StoreError>)
    ensures r.Err? <==> row.fileId !in FileIds(d)
    ensures r.Ok? ==> var (e, id) := r.value;
      && id == d.lastChunkId + 1 == e.lastChunkId
      && e.chunks == d.chunks[id := row] && e.fts == d.fts[id := FtsRow(row.text, row.heading)]
      && e.files == d.files && e.vec == d.vec && e.meta == d.meta && e.lastFileId == d.lastFileId
  {
    if row.fileId !in FileIds(d) then Err(ForeignKeyViolation)
    else
      var id := d.lastChunkId + 1;
      Ok((d.(chunks := d.chunks[id := row], fts := d.fts[id := FtsRow(row.text, row.heading)], lastChunkId := id), id))
  }

  /** `INSERT INTO chunks_vec (chunk_id, embedding)`: the chunk id is the
      primary key of the vec table, and nothing else is checked. */
  function InsertVec(d: Db, chunkId: nat, e: Embedding): (r: Result<Db, StoreError>)
    ensures r.Err? <==> chunkId in d.vec
    ensures r.Ok? ==> r.value == d.(vec := d.vec[chunkId := e])
  {
    if chunkId in d.vec then Err(PrimaryKeyViolation) else Ok(d.(vec := d.vec[chunkId := e]))
  }

  /** `UPDATE chunks SET ... WHERE id = ?`: the `chunks_au` trigger
      replaces the FTS row; an id with no row matches nothing. */
  function UpdateChunk(d: Db, id: nat, row: ChunkRow): (r: Db)
    ensures id !in d.chunks ==> r == d
    ensures id in d.chunks ==> r.chunks == d.chunks[id := row] && r.fts == d.fts[id := FtsRow(row.text, row.heading)]
    ensures r.files == d.files && r.vec == d.vec
  {
    if id !in d.chunks then d
    else d.(chunks := d.chunks[id := row], fts := d.fts[id := FtsRow(row.text, row.heading)])
  }

  /** `DELETE FROM chunks_vec WHERE chunk_id IN (SELECT id FROM chunks
      WHERE file_id = ?)` */
  function DeleteVecOf(d: Db, id: nat): (r: Db)
    ensures r.vec.Keys == d.vec.Keys - ChunksOfFile(d, id)
    ensures forall c :: c in r.vec ==> r.vec[c] == d.vec[c]
    ensures r.files == d.files && r.chunks == d.chunks && r.fts == d.fts && r.meta == d.meta
  {
    d.(vec := map c | c in d.vec && c !in ChunksOfFile(d, id) :: d.vec[c])
  }

  /** `DELETE FROM files WHERE id = ?`: the cascade removes the file's
      chunks, and the `chunks_ad` trigger removes their FTS rows. The vec
      table is left as it is. */
  function DeleteFileRow(d: Db, id: nat): (r: Db)
    ensures forall p :: p in r.files <==> p in d.files && d.files[p].id != id
    ensures r.chunks.Keys == d.chunks.Keys - ChunksOfFile(d, id)
    ensures r.fts.Keys == d.fts.Keys - ChunksOfFile(d, id)
    ensures r.vec == d.vec && r.meta == d.meta
  {
    var gone := ChunksOfFile(d, id);
    d.(files := map p | p in d.files && d.files[p].id != id :: d.files[p],
       chunks := map c | c in d.chunks && c !in gone :: d.chunks[c],
       fts := map c | c in d.fts && c !in gone :: d.fts[c])
  }

  // ---------------------------------------------------------------------------
  // Invariants
  // ---------------------------------------------------------------------------

  /** Every file has a distinct id no larger than the counter; every chunk
      has an id no larger than its counter and refers to a stored file. */
  ghost predicate KeysOk(d: Db) {
    && (forall p :: p in d.files ==> 1 <= d.files[p].id <= d.lastFileId)
    && (forall p, q :: p in d.files && q in d.files && p != q ==> d.files[p].id != d.files[q].id)
    && (forall c :: c in d.chunks ==> 1 <= c <= d.lastChunkId && d.chunks[c].fileId in FileIds(d))
  }

  /** The FTS table mirrors the text and heading of every chunk. */
  ghost predicate FtsInSync(d: Db) {
    && d.fts.Keys == d.chunks.Keys
    && forall c :: c in d.chunks ==> d.fts[c] == FtsRow(d.chunks[c].text, d.chunks[c].heading)
  }

  /** The vec table holds exactly one entry per chunk, its embedding. */
  ghost predicate VecInSync(d: Db) {
    && d.vec.Keys == d.chunks.Keys
    && forall c :: c in d.chunks ==> d.vec[c] == d.chunks[c].embedding
  }

  ghost predicate Consistent(d: Db) {
    KeysOk(d) && FtsInSync(d) && VecInSync(d)
  }

  lemma EmptyConsistent()
    ensures Consistent(InitDb(EmptyDb()))
  {
  }

  /** `init_db` touches only the meta table, so a consistent store stays
      consistent. */
  lemma InitDbConsistent(d: Db)
    requires Consistent(d)
    ensures Consistent(InitDb(d))
  {
    var r := InitDb(d);
    assert FileIds(r) == FileIds(d);
  }

  /** The triggers keep the FTS table in lockstep through inserts. */
  lemma InsertChunkFts(d: Db, row: ChunkRow)
    requires FtsInSync(d) && InsertChunk(d, row).Ok?
    ensures FtsInSync(InsertChunk(d, row).value.0)
  {
  }

  /** ... through updates ... */
  lemma UpdateChunkFts(d: Db, id: nat, row: ChunkRow)
    requires FtsInSync(d)
    ensures FtsInSync(UpdateChunk(d, id, row))
  {
  }

  /** ... and through the cascade of a file deletion. */
  lemma DeleteFileRowFts(d: Db, id: nat)
    requires FtsInSync(d)
    ensures FtsInSync(DeleteFileRow(d, id))
  {
    var r := DeleteFileRow(d, id);
    forall c | c in r.chunks
      ensures r.fts[c] == FtsRow(r.chunks[c].text, r.chunks[c].heading)
    {
      assert r.chunks[c] == d.chunks[c] && r.fts[c] == d.fts[c];
    }
  }

  /** The cascade leaves no chunk of the deleted file behind. */
  lemma DeleteFileRowCascade(d: Db, id: nat)
    ensures ChunksOfFile(DeleteFileRow(d, id), id) == {}
    ensures forall c :: c in DeleteFileRow(d, id).chunks ==> DeleteFileRow(d, id).chunks[c] == d.chunks[c]
  {
    var r := DeleteFileRow(d, id);
    forall c | c in r.chunks
      ensures r.chunks[c] == d.chunks[c] && r.chunks[c].fileId != id
    {
      assert c !in ChunksOfFile(d, id);
    }
  }

  /** The vec table is not cascaded: deleting a file row that still has a
      chunk with a vec entry leaves that entry orphaned. */
  lemma DeleteFileRowOrphansVec(d: Db, id: nat, c: nat)
    requires VecInSync(d) && c in ChunksOfFile(d, id)
    ensures var r := DeleteFileRow(d, id); c in r.vec && c !in r.chunks && !VecInSync(r)
  {
  }

  /** Inserting a file with a fresh id and a chunk for it keeps the keys
      consistent. */
  lemma InsertFileKeys(d: Db, path: string, namespace: string, agent: Option<string>, mtime: real, hash: string, chunkCount: nat)
    requires KeysOk(d) && path !in d.files
    ensures KeysOk(InsertFile(d, path, namespace, agent, mtime, hash, chunkCount).value.0)
    ensures InsertFile(d, path, namespace, agent, mtime, hash, chunkCount).value.1 !in FileIds(d)
  {
    var (e, id) := InsertFile(d, path, namespace, agent, mtime, hash, chunkCount).value;
    assert e.files[path].id == id;
    forall c | c in e.chunks
      ensures e.chunks[c].fileId in FileIds(e)
    {
      var p :| p in d.files && d.files[p].id == e.chunks[c].fileId;
      assert e.files[p] == d.files[p];
    }
  }
}
