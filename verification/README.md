# forge-memory, modelled in Dafny

forge-memory is the project memory of the forge skill set. It keeps Markdown
notes under `.forge/memory/` (plus extra directories such as `docs/`), and
it does five things with them:

- it cuts each note into heading-scoped chunks of about 400 tokens, with an
  overlap of about 80 tokens (`chunker.py`);
- it mirrors the notes into a SQLite index: a `files` table, a `chunks`
  table, an FTS5 table kept in step by triggers, and a vector table
  (`db.py`, `sync.py`);
- it answers hybrid queries. A query is scored as 0.7 times the vector
  similarity plus 0.3 times the normalised BM25 rank. Results are filtered
  by namespace and agent, cut at a threshold and a limit, and the index is
  re-synced first when it is stale (`search.py`);
- it appends timestamped entries to a per-day session journal
  (`logger.py`);
- it folds the journals written since the last consolidation into
  `MEMORY.md`, grouped by story (`consolidate.py`).

Next to it, `audit-skill.py` audits a skill directory. It scans every
non-binary file against five tables of patterns, weighs the findings by
severity into a risk score capped at 100, and maps that score to a verdict
and an exit status.

The model is one Dafny module per concern:

| module | file | models |
|---|---|---|
| `Base` | base.dfy | string helpers the Python code leans on: `strip`, `split`, `find`, `os.path`, universal-newline reading |
| `Order` | order.dfy | string order and the sorts: `sorted(...)` and a stable descending sort by score |
| `Chunker` | chunker.dfy | `chunker.py` |
| `Store` | store.dfy | the schema, constraints and triggers of `db.py`, as maps |
| `Sync` | sync.dfy | `sync.py` |
| `Search` | search.dfy | `search.py` |
| `SessionLog` | sessionlog.dfy | `logger.py` and the journal parser of `consolidate.py` |
| `Consolidation` | consolidate.dfy | `consolidate.py` |
| `Audit` | audit.dfy | `audit-skill.py` |

The database is a value, `Store.Db`, and each SQL statement is a function
on it. The filesystem, the clock, the embedding model, the regex engine and
SQLite's query ordering become parameters. Each text-mode read of a file
(`_index_file` in `sync.py`, the reads of `MEMORY.md` and of the journals in
`consolidate.py`, the reads of `audit-skill.py`) becomes the file's text
passed through `Base.Newlines`, which stands for Python's universal-newline
mode: `"\r\n"` and a lone `"\r"` both read as `"\n"`. In `Sync` this
happens in `Sync.FileChunks`, so a disk entry's `content` is the raw text.
The configuration constants are written in as constants: 400 and 80
tokens, 4 characters per token, weights 0.7 and 0.3, embedding dimension
384.

## Model

| member | source | states |
|---|---|---|
| Chunker.EstimateTokens | skills/forge/scripts/forge-memory/chunker.py:29-31 | the estimate is at least 1, and is the number of whole 4-character groups in the text |
| Chunker.FenceStrip | skills/forge/scripts/forge-memory/chunker.py:74-76 | a line is a code fence exactly when its stripped form starts with three backticks |
| Chunker.SplitIntoSections | skills/forge/scripts/forge-memory/chunker.py:37-71 | the sections tile the lines in order; each opens at a `##`/`###` heading line, carries that line's stripped text, and holds no other heading line; only a leading section may be headless |
| Chunker.SectionsUnique | skills/forge/scripts/forge-memory/chunker.py:37-71 | the tiling above is unique: any list of sections with those properties is the one the splitter returns |
| Chunker.HeadingAtSection | skills/forge/scripts/forge-memory/chunker.py:37-71 | every line of a section sees the section's heading as its nearest heading above |
| Chunker.SectionBlocks | skills/forge/scripts/forge-memory/chunker.py:95-135 | the blocks tile the section; a code block opens at a fence and closes at the next fence or at the end of the section; every other block is one line |
| Chunker.OverlapSeed | skills/forge/scripts/forge-memory/chunker.py:184-199 | the seed is a suffix of the previous chunk of at most the overlap size; it is the whole window when the window has no line break, and otherwise starts just after the window's first line break |
| Chunker.StepOk | skills/forge/scripts/forge-memory/chunker.py:160-210 | one turn of the packing loop only appends pieces; each piece is non-blank, within the size or a single block or a seed plus one block, with strictly increasing end lines, and a seeded piece starts with a seed cut from the piece before it |
| Chunker.RunOk | skills/forge/scripts/forge-memory/chunker.py:160-212 | the invariants of `StepOk` hold after the whole loop over a section's blocks |
| Chunker.PackOk | skills/forge/scripts/forge-memory/chunker.py:143-212 | after the final flush every piece is well formed and ends within the section's last block |
| Chunker.PackCovers | skills/forge/scripts/forge-memory/chunker.py:143-212 | every non-blank block is held whole by an emitted piece that spans its lines |
| Chunker.PackOversized | skills/forge/scripts/forge-memory/chunker.py:166-178 | every non-blank code block longer than the chunk size is emitted as a piece on its own |
| Chunker.SectionItems | skills/forge/scripts/forge-memory/chunker.py:95-135 | the blocks the packing loop sees come in line order and end inside the section |
| Chunker.SectionChunksOk | skills/forge/scripts/forge-memory/chunker.py:79-212 | a section's chunks lie inside it, carry its heading, have the estimated token count, and have strictly increasing end lines |
| Chunker.SectionChunksCover | skills/forge/scripts/forge-memory/chunker.py:79-212 | every non-blank line of a section occurs in the text of a chunk whose line range contains it |
| Chunker.SectionChunksOversized | skills/forge/scripts/forge-memory/chunker.py:166-178 | an oversized code block of a section becomes a chunk holding exactly its text and lines |
| Chunker.ChunkMarkdownOk | skills/forge/scripts/forge-memory/chunker.py:220-259 | every chunk is non-blank, has the estimated token count, lies within the text's lines, and carries the heading in force at its first and last line |
| Chunker.ChunkMarkdownOrdered | skills/forge/scripts/forge-memory/chunker.py:249-257 | chunks come out in document order, with strictly increasing end lines |
| Chunker.ChunkMarkdownCovers | skills/forge/scripts/forge-memory/chunker.py:220-259 | no content is lost: every non-blank line of the text occurs in a chunk that spans it |
| Chunker.ChunkMarkdownOversized | skills/forge/scripts/forge-memory/chunker.py:166-178 | a code block longer than the chunk size is a chunk of its own, whole, under its section's heading |
| Chunker.ChunkMarkdownEmpty | skills/forge/scripts/forge-memory/chunker.py:242-243 | the text yields no chunk exactly when it is blank |
| Store.InsertOrIgnore | skills/forge/scripts/forge-memory/db.py:114-119 | existing meta values are never overwritten; every default key ends up present; no other key appears |
| Store.InitDb | skills/forge/scripts/forge-memory/db.py:106-121 | initialisation touches only `meta`: it keeps every stored value and adds exactly the missing defaults |
| Store.InitDbNoop | skills/forge/scripts/forge-memory/db.py:114-119 | on a store that already has all three defaults, initialisation changes nothing |
| Store.InitDbIdempotent | skills/forge/scripts/forge-memory/db.py:106-121 | initialising twice is initialising once |
| Store.InitDbFresh | skills/forge/scripts/forge-memory/db.py:83-87 | a fresh store gets exactly schema version 1, the MiniLM model name and dimension 384 |
| Store.InsertFile | skills/forge/scripts/forge-memory/db.py:18-27 | inserting a path already stored fails on the UNIQUE constraint; otherwise the row gets the next id and nothing else changes |
| Store.InsertChunk | skills/forge/scripts/forge-memory/db.py:29-39 | a chunk of an unknown file fails on the foreign key; otherwise it gets the next id, and the insert trigger adds its FTS row |
| Store.InsertVec | skills/forge/scripts/forge-memory/db.py:43-46 | a vector for a chunk id that already has one fails; otherwise exactly that vector is added |
| Store.UpdateChunk | skills/forge/scripts/forge-memory/db.py:68-73 | updating a chunk also replaces its FTS row; files and vectors are untouched; an unknown id changes nothing |
| Store.DeleteVecOf | skills/forge/scripts/forge-memory/sync.py:180-193 | exactly the vectors of the file's chunks are removed, and nothing else changes |
| Store.DeleteFileRow | skills/forge/scripts/forge-memory/db.py:29-39 | deleting a file row cascades to its chunks and their FTS rows, and leaves the vector table alone |
| Store.InsertChunkFts | skills/forge/scripts/forge-memory/db.py:58-61 | the insert trigger keeps the FTS table equal to the chunk table |
| Store.UpdateChunkFts | skills/forge/scripts/forge-memory/db.py:68-73 | the update trigger keeps the FTS table equal to the chunk table |
| Store.DeleteFileRowFts | skills/forge/scripts/forge-memory/db.py:63-66 | the delete trigger, fired by the cascade, keeps the FTS table equal to the chunk table |
| Store.DeleteFileRowCascade | skills/forge/scripts/forge-memory/db.py:29-39 | after the cascade no chunk of the file remains, and every other chunk is unchanged |
| Store.DeleteFileRowOrphansVec | skills/forge/scripts/forge-memory/db.py:43-46 | deleting a file row alone would leave its vectors behind; this is why the vectors are removed first |
| Store.InsertFileKeys | skills/forge/scripts/forge-memory/db.py:18-27 | a new file gets an id no stored file has, and ids stay unique |
| Store.EmptyConsistent | skills/forge/scripts/forge-memory/db.py:12-81 | a freshly initialised store is consistent: unique ids, and FTS rows and vectors in step with the chunks |
| Store.InitDbConsistent | skills/forge/scripts/forge-memory/db.py:106-121 | initialisation keeps a store consistent |
| Sync.DetectNamespace | skills/forge/scripts/forge-memory/sync.py:51-76 | the namespace is project, session or agent, and an agent name is returned exactly for the agent namespace |
| Sync.NamespaceTopLevel | skills/forge/scripts/forge-memory/sync.py:51-76 | a file directly in the memory directory is a project file |
| Sync.NamespaceInFolder | skills/forge/scripts/forge-memory/sync.py:51-76 | in a `sessions` folder (any case) a file is a session file; in an `agents` folder it is an agent file named by its stem; in any other folder it is a project file; both separators count |
| Sync.ScanFilesSpec | skills/forge/scripts/forge-memory/sync.py:79-119 | the scan returns exactly the `.md` entries of the walk, each with its detected or overridden namespace |
| Sync.ScanAllSpec | skills/forge/scripts/forge-memory/sync.py:232-236 | the files `sync` considers start with the memory directory's scan, and are exactly its `.md` entries with detected namespaces plus the `.md` entries of every extra directory under `project` |
| Sync.OverrideNamespace | skills/forge/scripts/forge-memory/sync.py:106-109 | a namespace override sets the namespace and clears the agent |
| Sync.Put | skills/forge/scripts/forge-memory/sync.py:232-237 | the disk map keeps one entry per path: the new entry replaces any entry with its path and every other entry stays |
| Sync.DiskMapLast | skills/forge/scripts/forge-memory/sync.py:232-237 | for every path the disk map holds the last scanned file with it, and only scanned files |
| Sync.DeleteFile | skills/forge/scripts/forge-memory/sync.py:180-193 | deleting a path that is not stored changes nothing |
| Sync.DeleteFileOk | skills/forge/scripts/forge-memory/sync.py:180-193 | deleting a file removes exactly its row, leaves no chunk of it behind, and keeps the store consistent |
| Sync.IndexChunks | skills/forge/scripts/forge-memory/sync.py:126-177 | a file without chunks is not stored; a path already stored fails on the UNIQUE constraint |
| Sync.IndexChunksOk | skills/forge/scripts/forge-memory/sync.py:126-177 | indexing a new path succeeds, keeps the store consistent, returns the chunk count, and stores the file row exactly when there are chunks |
| Sync.IndexChunksRows | skills/forge/scripts/forge-memory/sync.py:155-175 | chunk `i` is stored under the i-th fresh id, with its text, lines, heading, token count and embedding |
| Sync.IndexChunksVec | skills/forge/scripts/forge-memory/sync.py:155-175 | each chunk's embedding is stored in the vector table under its chunk id |
| Sync.IndexChunksIds | skills/forge/scripts/forge-memory/sync.py:155-175 | the new file owns exactly the consecutive block of fresh chunk ids |
| Sync.StoredHashes | skills/forge/scripts/forge-memory/sync.py:240-241 | `db_map` holds every stored path with its stored hash |
| Sync.DeletePhaseOk | skills/forge/scripts/forge-memory/sync.py:243-249 | the deletion loop removes exactly the listed paths missing from disk, leaves other rows as they were, and keeps the store consistent |
| Sync.DeletePhaseCount | skills/forge/scripts/forge-memory/sync.py:243-249 | the deleted count is the number of listed paths missing from disk |
| Sync.ProcessFileOk | skills/forge/scripts/forge-memory/sync.py:251-272 | one turn succeeds, keeps the store consistent, and reports added for a new path, unchanged for a same-hash path without force, and updated otherwise |
| Sync.ProcessFileFiles | skills/forge/scripts/forge-memory/sync.py:251-272 | one turn touches only its own path, which ends stored with the disk hash exactly when it was kept or its content has chunks |
| Sync.ProcessPhaseFiles | skills/forge/scripts/forge-memory/sync.py:251-272 | after the loop every disk path is stored as its own turn decided |
| Sync.ProcessPhaseCounts | skills/forge/scripts/forge-memory/sync.py:251-272 | each turn counts once as added, updated or unchanged; the loop deletes nothing; with force nothing is unchanged |
| Sync.ProcessFileSteady | skills/forge/scripts/forge-memory/sync.py:251-272 | without force, a path whose stored hash matches, or a new path without chunks, leaves the store as it was |
| Sync.Sync | skills/forge/scripts/forge-memory/sync.py:224-225 | `sync` fails exactly when the memory directory does not exist |
| Sync.SyncOk | skills/forge/scripts/forge-memory/sync.py:200-276 | on an existing memory directory `sync` succeeds, keeps the store consistent and leaves the meta defaults in place |
| Sync.SyncFiles | skills/forge/scripts/forge-memory/sync.py:200-276 | after `sync` a disk path is stored, with its disk hash, exactly when it was unchanged without force or its content has chunks |
| Sync.SyncNoStray | skills/forge/scripts/forge-memory/sync.py:200-276 | after `sync` every stored path is on disk |
| Sync.SyncCounts | skills/forge/scripts/forge-memory/sync.py:200-276 | added plus updated plus unchanged is the number of disk files; deleted is the number of stored paths gone from disk; with force nothing is unchanged |
| Sync.SyncIdempotent | skills/forge/scripts/forge-memory/sync.py:200-276 | a second `sync` over the same disk, without force, leaves the store as it is; it only counts stored paths as unchanged and chunkless disk paths as added |
| Search.NormaliseFtsQuery | skills/forge/scripts/forge-memory/search.py:83-94 | the FTS query is always a quoted phrase, `""` for a query without words |
| Search.FtsQueryRoundTrip | skills/forge/scripts/forge-memory/search.py:83-94 | reading the FTS query back as `"w1" OR "w2" ...` gives exactly the query's whitespace-separated words |
| Search.Listing | skills/forge/scripts/forge-memory/search.py:59-69 | the walk yields exactly the `.md` files of the directories that exist, with their mtimes; a missing directory is skipped |
| Search.StoredMtimes | skills/forge/scripts/forge-memory/search.py:56 | `stored_mtimes` holds every stored path with its stored mtime |
| Search.ShouldAutoSync | skills/forge/scripts/forge-memory/search.py:45-80 | a sync is due exactly when the store is missing, the stored and disk path sets differ, or some path's mtime differs |
| Search.DiskMtimesPaths | skills/forge/scripts/forge-memory/search.py:72-73 | the disk key set is exactly the paths of the walked `.md` files |
| Search.DiskMtimeOf | skills/forge/scripts/forge-memory/search.py:59-69 | the disk mtime of a path is the one the walk reported for it last |
| Search.VecScore | skills/forge/scripts/forge-memory/search.py:159-164 | a distance within the scale scores in [0,1]; distance 0 scores 1; the maximum distance scores 0 |
| Search.VecScoresRange | skills/forge/scripts/forge-memory/search.py:159-164 | with non-negative distances every vector score lies in [0,1] |
| Search.VecFarthest | skills/forge/scripts/forge-memory/search.py:159-164 | the farthest hit scores 0 |
| Search.VecAllZero | skills/forge/scripts/forge-memory/search.py:159-164 | when every distance is 0 (the scale falls back to 1), every score is 1 |
| Search.RankRange | skills/forge/scripts/forge-memory/search.py:169-187 | the rank spread is positive: 1.0 stands in when all ranks are equal |
| Search.FtsScores | skills/forge/scripts/forge-memory/search.py:185-187 | a failed FTS query contributes no scores |
| Search.FtsScoresRange | skills/forge/scripts/forge-memory/search.py:169-187 | every FTS score lies in [0,1], whatever the ranks |
| Search.FtsBestWorst | skills/forge/scripts/forge-memory/search.py:169-187 | the best (lowest) BM25 rank scores 1 and the worst scores 0 |
| Search.FtsAllEqual | skills/forge/scripts/forge-memory/search.py:169-187 | when all ranks are equal, a single hit included, every FTS score is 0 |
| Search.Fusion | skills/forge/scripts/forge-memory/search.py:192-199 | the weighted sum of two scores in [0,1] lies in [0,1] |
| Search.FusionMonotone | skills/forge/scripts/forge-memory/search.py:192-199 | the fused score never drops when either part grows |
| Search.Fuse | skills/forge/scripts/forge-memory/search.py:192-199 | the candidates are exactly the ids with a vector or FTS score whose fused score reaches the threshold, each once, with its fused score |
| Search.FusedRange | skills/forge/scripts/forge-memory/search.py:192-199 | fused scores of normalised inputs lie in [0,1] |
| Search.Rank | skills/forge/scripts/forge-memory/search.py:201 | the ranked list holds each kept candidate once, with its fused score, by descending score |
| Search.CollectTakes | skills/forge/scripts/forge-memory/search.py:206-239 | the result loop returns the first `limit` entries of the ranked list that have a chunk row and pass the namespace and agent filters |
| Search.CollectSubsequence | skills/forge/scripts/forge-memory/search.py:206-239 | the results are an in-order choice of eligible ranked entries, at most `limit` of them, and all of them when fewer than `limit` came out |
| Search.ResultsSound | skills/forge/scripts/forge-memory/search.py:206-239 | every result is a kept, eligible candidate, with its chunk's fields and its fused score, which reaches the threshold |
| Search.ResultsSorted | skills/forge/scripts/forge-memory/search.py:201 | results come out by descending score |
| Search.ResultsComplete | skills/forge/scripts/forge-memory/search.py:208-209 | there are at most `limit` results, and when there are fewer, every kept eligible candidate is among them |
| Search.ResultsTopK | skills/forge/scripts/forge-memory/search.py:201-209 | the results are the top of the ranking: a kept eligible candidate that is not returned scores at most the last result's score |
| Search.SelectResults | skills/forge/scripts/forge-memory/search.py:193-239 | over a store that exists, the results are at most `limit`, by descending score, each a kept eligible candidate with its fused score; all such candidates when fewer than `limit` come out, and none left out scoring above the last result |
| Search.DoSearch | skills/forge/scripts/forge-memory/search.py:101-242 | a blank query or a missing store returns nothing; otherwise the results are sound and sorted by score, every kept eligible candidate is returned when fewer than `limit` come out, and none left out scores above the last result |
| Search.AutoSyncs | skills/forge/scripts/forge-memory/search.py:133-138 | the search syncs first exactly when the query is not blank and a sync is due; a blank query never syncs |
| SessionLog.MatchEntry | skills/forge/scripts/forge-memory/consolidate.py:14-19 | a match starts with `- **`, has a well-formed time, and has a non-empty message on one line that starts with a non-space |
| SessionLog.GroupTaken | skills/forge/scripts/forge-memory/consolidate.py:14-19 | an optional `[agent]` or `(story)` group is taken exactly where the pattern finds it |
| SessionLog.AgentRead | skills/forge/scripts/forge-memory/logger.py:63-70 | the agent tag the logger writes reads back as the agent; no tag reads back as none |
| SessionLog.StoryRead | skills/forge/scripts/forge-memory/logger.py:63-70 | the story tag the logger writes reads back as the story; no tag reads back as none |
| SessionLog.LoggedParse | skills/forge/scripts/forge-memory/consolidate.py:63-79 | a line the logger wrote, followed by blanks, parses back to its time, agent, story and stripped message |
| SessionLog.FormatParse | skills/forge/scripts/forge-memory/logger.py:63-70 | format then parse gives back the time, agent, story and stripped message; empty agent and story tags read as absent |
| SessionLog.Log | skills/forge/scripts/forge-memory/logger.py:32-75 | the journal goes to the day's file, keeps what was there, and ends with the new entry |
| SessionLog.SessionPathName | skills/forge/scripts/forge-memory/logger.py:11-18 | the day's journal is `sessions/<date>.md` |
| SessionLog.DateStem | skills/forge/scripts/forge-memory/consolidate.py:66 | the journal's stem is the date the logger named it after |
| SessionLog.LogCreates | skills/forge/scripts/forge-memory/logger.py:21-29 | a new journal starts with the header for its day, then the entry |
| SessionLog.LogContent | skills/forge/scripts/forge-memory/logger.py:21-73 | the header is written only for a new file, and the entry line is appended with a line break |
| SessionLog.LineEntries | skills/forge/scripts/forge-memory/consolidate.py:68-77 | each line yields at most one entry, and a one-line line yields a one-line entry |
| SessionLog.ParseEntriesPlain | skills/forge/scripts/forge-memory/consolidate.py:63-79 | every parsed entry carries the journal's date, and entries read from lines are one-line |
| SessionLog.HeaderNoEntries | skills/forge/scripts/forge-memory/logger.py:21-29 | a journal's header holds no entry |
| SessionLog.AppendLine | skills/forge/scripts/forge-memory/logger.py:72-73 | appending a line to a journal that ends a line adds exactly that line's entries |
| SessionLog.LogAppendsEntry | skills/forge/scripts/forge-memory/logger.py:32-75 | after `log`, the journal reads back as its earlier entries followed by exactly the new one |
| SessionLog.JournalAppend | skills/forge/scripts/forge-memory/logger.py:72-73 | appending one line after a header or an existing journal adds exactly that line's entries |
| SessionLog.ReadAppended | skills/forge/scripts/forge-memory/consolidate.py:68-69 | a line appended without carriage returns reads back unchanged after universal newlines |
| Consolidation.MarkerDate | skills/forge/scripts/forge-memory/consolidate.py:22-24 | a marker yields a well-formed date that follows the marker prefix |
| Consolidation.LastSome | skills/forge/scripts/forge-memory/consolidate.py:36-40 | the last marker date, or none exactly when no line is a marker |
| Consolidation.LastMarkerAfter | skills/forge/scripts/forge-memory/consolidate.py:27-41 | the marker after every other marker wins, whatever the dates of those before it |
| Consolidation.MarkerRead | skills/forge/scripts/forge-memory/consolidate.py:140-145 | the marker heading a consolidation writes is read back as its date |
| Consolidation.LastNotLatest | skills/forge/scripts/forge-memory/consolidate.py:36-40 | the last marker wins even over a later date |
| Consolidation.SelectedAfter | skills/forge/scripts/forge-memory/consolidate.py:56-58 | after a consolidation, exactly the journals named after later days are chosen |
| Consolidation.Keep | skills/forge/scripts/forge-memory/consolidate.py:53-58 | the kept names are exactly the chosen ones, in the given order |
| Consolidation.SessionFiles | skills/forge/scripts/forge-memory/consolidate.py:44-60 | the journals to fold are exactly the chosen names, sorted; none when the directory is missing |
| Consolidation.Keys | skills/forge/scripts/forge-memory/consolidate.py:133-137 | the keys of `by_story` are exactly the entries' stories, each once |
| Consolidation.StoryKeys | skills/forge/scripts/forge-memory/consolidate.py:147-150 | `story_keys` holds every story once: named stories in ascending order, then the general key |
| Consolidation.StoryGroup | skills/forge/scripts/forge-memory/consolidate.py:133-137 | a group holds exactly the entries with its story |
| Consolidation.GroupsPermute | skills/forge/scripts/forge-memory/consolidate.py:152-162 | the groups of a complete key list together hold exactly the entries |
| Consolidation.StoryGroupsPermute | skills/forge/scripts/forge-memory/consolidate.py:133-162 | the section lists every collected entry exactly once |
| Consolidation.GroupLinesSize | skills/forge/scripts/forge-memory/consolidate.py:152-162 | each group adds a label line, its entries and a blank line |
| Consolidation.SectionSize | skills/forge/scripts/forge-memory/consolidate.py:140-162 | the section has three opening lines, one line per entry and two per story |
| Consolidation.Consolidate | skills/forge/scripts/forge-memory/consolidate.py:82-172 | the count is the number of entries in the chosen journals; a section is appended exactly when it is positive, and it opens with the dated marker |
| Consolidation.SectionText | skills/forge/scripts/forge-memory/consolidate.py:140-145 | the appended text opens with a line break and the marker line |
| Consolidation.MemoryAfter | skills/forge/scripts/forge-memory/consolidate.py:164-167 | MEMORY.md is unchanged when nothing was consolidated; otherwise it keeps its text and ends with the section |
| Consolidation.SectionMarks | skills/forge/scripts/forge-memory/consolidate.py:140-167 | after the section is appended, the last marker of MEMORY.md is today's, even across a trailing carriage return |
| Consolidation.ConsolidateMarks | skills/forge/scripts/forge-memory/consolidate.py:82-172 | a consolidation that appends makes today the last consolidation date |
| Consolidation.NoneAfter | skills/forge/scripts/forge-memory/consolidate.py:44-60 | no journal is chosen after a day that no journal's name passes |
| Consolidation.ConsolidateAgain | skills/forge/scripts/forge-memory/consolidate.py:82-172 | consolidating again the same day, with no journal after today, finds nothing and leaves MEMORY.md as it is |
| Consolidation.NothingNew | skills/forge/scripts/forge-memory/consolidate.py:111-115 | when the last consolidation is today and no journal is later, nothing is consolidated |
| Consolidation.GeneralTwice | skills/forge/scripts/forge-memory/consolidate.py:154-157 | an empty story and no story are two keys that both print as the general label |
| Consolidation.OnlyJournal | skills/forge/scripts/forge-memory/consolidate.py:54 | before any consolidation every `.md` journal is chosen |
| Consolidation.LoggedConsolidated | skills/forge/scripts/forge-memory/consolidate.py:120-131 | a journal holding one logged entry consolidates exactly one entry |
| Consolidation.AllEntriesPlain | skills/forge/scripts/forge-memory/consolidate.py:120-131 | entries collected from journals with one-line names are one-line |
| Audit.FileLinesJoin | skills/forge/audit-skill.py:106-107 | the lines of a file, joined, give back its text |
| Audit.TextLinesJoin | skills/forge/audit-skill.py:106-107 | the lines a text-mode read yields, joined, give the text with its line ends made `\n` |
| Audit.ScanFile | skills/forge/audit-skill.py:118-124 | an unreadable file gives one informational access finding at line 0 |
| Audit.LineFindingsSound | skills/forge/audit-skill.py:108-117 | every finding on a line comes from a table rule that matches the line, with the probe's file, category and severity |
| Audit.LineFindingsComplete | skills/forge/audit-skill.py:108-117 | every rule that matches a line gives a finding |
| Audit.ScanLinesSound | skills/forge/audit-skill.py:102-125 | every finding of a scan names a line that its rule matches |
| Audit.ScanLinesComplete | skills/forge/audit-skill.py:102-125 | every matching (line, rule) pair gives a finding at that line |
| Audit.ScanLinesOrdered | skills/forge/audit-skill.py:107 | findings come line after line |
| Audit.ScanFileLines | skills/forge/audit-skill.py:106-107 | scanning a readable file numbers its text-mode lines from 1 |
| Audit.ScanFileOrdered | skills/forge/audit-skill.py:107 | a file's findings come line after line |
| Audit.Suffix | skills/forge/audit-skill.py:149 | the suffix is empty or a dot-led ending of the path |
| Audit.RiskScore | skills/forge/audit-skill.py:185-196 | the score is the total severity weight, capped at 100 |
| Audit.Anchor | skills/forge/audit-skill.py:134 | pathlib's anchor: empty for a relative path, `//` for exactly two leading slashes, `/` otherwise |
| Audit.CleanParts | skills/forge/audit-skill.py:134 | pathlib drops exactly the empty and `.` components |
| Audit.PathParts | skills/forge/audit-skill.py:134 | a path's components are non-empty, not `.`, and hold no slash |
| Audit.SkillMdClean | skills/forge/audit-skill.py:134-140 | for a clean relative root the recorded path is `root/SKILL.md` |
| Audit.SkillMdTrailingSlash | skills/forge/audit-skill.py:134-140 | a trailing slash on the root does not change the recorded path |
| Audit.SkillMdDot | skills/forge/audit-skill.py:134-140 | the current directory `.` records the bare name `SKILL.md` |
| Audit.AuditSkill | skills/forge/audit-skill.py:128-198 | the result names the audited root and has a score in [0,100] |
| Audit.VerdictOf | skills/forge/audit-skill.py:90-99 | the verdict bands: low up to 20, medium up to 50, high up to 80, critical above |
| Audit.ExitCode | skills/forge/audit-skill.py:274-279 | exit 2 for critical, 1 for high, 0 for low and medium |
| Audit.Main | skills/forge/audit-skill.py:258-279 | exit 1 without an argument or for a non-directory; otherwise the audit's exit status |
| Audit.FileBelongs | skills/forge/audit-skill.py:158-182 | every finding of a file names the file and carries its category's severity; access findings, at line 0, come only from unreadable files |
| Audit.FileOrdered | skills/forge/audit-skill.py:158-182 | a readable file's findings come category by category in the fixed order |
| Audit.FileUnreadable | skills/forge/audit-skill.py:158-182 | an unreadable file gives five access findings, one per category scan |
| Audit.FileComplete | skills/forge/audit-skill.py:158-182 | every rule of every category that matches a line of a readable file gives a finding with that category's severity |
| Audit.WalkSound | skills/forge/audit-skill.py:146-182 | every finding of the walk belongs to a non-binary file |
| Audit.WalkComplete | skills/forge/audit-skill.py:146-182 | every finding of every non-binary file is a finding of the walk |
| Audit.AuditSound | skills/forge/audit-skill.py:128-198 | every finding of an audit belongs to a non-binary file of the skill |
| Audit.AuditComplete | skills/forge/audit-skill.py:128-198 | every match in every non-binary readable file is reported |
| Audit.NoSkillMd | skills/forge/audit-skill.py:133-143 | without `SKILL.md` the audit has one critical structure finding, scores 100, and is critical |
| Audit.NoSkillMdExit | skills/forge/audit-skill.py:258-279 | a directory without `SKILL.md` always exits with status 2 |
| Audit.ScoreGrows | skills/forge/audit-skill.py:185-196 | adding findings never lowers the score |
| Audit.InfoWeightless | skills/forge/audit-skill.py:185-191 | informational findings weigh nothing |
| Audit.MoreFilesNoLower | skills/forge/audit-skill.py:128-198 | a skill that gains a file never scores lower |
| Audit.UnreadableNoRisk | skills/forge/audit-skill.py:118-124 | a file that cannot be read does not change the score |
| Audit.WeightByCounts | skills/forge/audit-skill.py:185-196 | the total weight is 25, 15, 5 and 2 times the number of critical, high, medium and low findings |
| Audit.FourCriticals | skills/forge/audit-skill.py:185-196 | four critical findings give the top score and exit status 2 |
| Audit.OneCriticalPasses | skills/forge/audit-skill.py:185-196 | a single critical finding alone scores 25, is medium risk, and exits 0 |
| Audit.FileStricter | skills/forge/audit-skill.py:173-177 | strict mode never lowers a file's weight |
| Audit.WalkStricter | skills/forge/audit-skill.py:146-182 | strict mode never lowers the walk's weight |
| Audit.StrictNoLower | skills/forge/audit-skill.py:264 | strict mode never lowers the score |
| Order.SortStrings | skills/forge/scripts/forge-memory/consolidate.py:53 | `sorted(names)` is an ascending permutation of the names |
| Order.SortDesc | skills/forge/scripts/forge-memory/search.py:201 | the descending sort by score is a permutation of the pairs |
| Order.SortDescStable | skills/forge/scripts/forge-memory/search.py:201 | the sort is stable: for every score, the pairs with that score keep their input order |

## Left out

- `cli.py`, `embedder.py`, `config.py` and `__main__.py` are not part of this model. Their constants are written in: 400 and 80 tokens, 0.7 and 0.3 weights, a limit of 5, a threshold of 0.3, dimension 384, and the extra `docs` directory.
- SQLite itself is not modelled: the vec0 KNN ordering, BM25 ranking, the FTS tokenizer, WAL and transactions. The rows a query returns, and the order of `SELECT path FROM files`, are inputs (`vecRows`, `ftsRows`, `dbOrder`).
- The vector query's `fetch_limit` (search.py:147) is not modelled; the vector rows are whatever the query returned.
- The embedding model is a function parameter `embed`; the vectors are opaque values.
- File I/O becomes data. `compute_hash`, `os.walk`/`rglob`, `os.path.getmtime` and reading a file are inputs: a file's hash, mtime and text are fields of its entry. Read errors in `sync` and partial reads are not modelled.
- `makedirs`, and opening files for writing, are not modelled; a write is the new file text.
- `datetime.now()` becomes the `date`, `time` and `today` parameters.
- The regex engine is a match oracle `matches(pattern, line)` that stands for `re.search(..., re.IGNORECASE)`, and the five pattern tables are an input `Tables`; their contents are left out.
- `print_report`, the verbose prints of `sync` and `consolidate`, and every other console output are not modelled.
- Search.DoSearch: the returned score is the exact fused score, not `round(score, 4)` (search.py:238). Scores are reals, not floats. So `results[k].score >= threshold` holds in the model, where Python's rounded score can fall just below the threshold (threshold 0.30004, fused score 0.30004, returned 0.3).
- Search.DoSearch: `dbExists` is whether the store exists after the auto-sync step. The sync that step runs is `Sync.Sync`, and whether it runs is `Search.AutoSyncs`; the two are not composed into one member. When the auto-sync is due and the memory directory is missing, `search` raises `FileNotFoundError` (sync.py:224-225, reached through search.py:137-138); `DoSearch` has no outcome for it. So with Python, a non-blank query reaches the empty return for a missing store (search.py:141-142) only if the store vanishes after the sync.
- Search.DoSearch: an exception from the FTS query is modelled as `ftsRows` being `None`, whatever its cause.
- SessionLog.MatchEntry: `\d` in the entry pattern matches ASCII digits only. Python 3's `\d` also matches other Unicode decimal digits, such as Arabic-Indic ones.
- Consolidation.MarkerDate: `\d` in the marker pattern matches ASCII digits only. So a marker dated in other Unicode decimal digits, which Python takes as the last date, is ignored here.
- SessionLog.FormatParse: it is stated for the regex on one written line. How a whole journal is read back, with universal newlines, is `SessionLog.LogAppendsEntry`.
- SessionLog.LogAppendsEntry: it requires the message, agent and story to hold no `\n` or `\r`. A `\r` would end the line when Python reads the journal back, so that entry would not read back whole.
- Consolidation.LoggedConsolidated: it has the same one-line precondition as `SessionLog.LogAppendsEntry`, for the same reason.
- Consolidation.ConsolidateMarks: it requires one-line journal names. Stories and agents come from one-line entries, so the appended section's lines stay one line each.
- Consolidation.ConsolidateAgain: it has the same one-line names precondition as `Consolidation.ConsolidateMarks`.
- Audit.ScanFile: decoding with `errors='ignore'` is not modelled; the file's text is given already decoded. One text value is used for all five scans of a file, where Python opens the file five times.
- Sync.Sync: `db.commit()`, `db.close()` and the transaction around the loops are not modelled; the returned store is the committed one.
- Base.Lower: case mapping is ASCII only, where Python's `str.lower` maps every cased Unicode letter. It decides the `.md` filter of both scans (sync.py:100, search.py:66), the folder names `sessions` and `agents` (sync.py:69) and the binary suffixes of the audit (audit-skill.py:149). The model's lower-cased string differs from Python's whenever a non-ASCII capital occurs. By the Unicode case tables the yes/no answers still agree for these targets: the only non-ASCII character whose lower case is all ASCII is the Kelvin sign (to `k`), and none of the targets contains a `k`.
- Base.Upper: case mapping is ASCII only, where Python's `str.upper` maps every cased Unicode letter. It decides only the `MEMORY.MD` test of sync.py:65. The non-ASCII characters whose Python upper case is all ASCII (`ı`, `ſ`, `ß` and the ligatures `ﬀ` to `ﬆ`) give only `I`, `S`, `F`, `L` and `T`, none of which occur in `MEMORY.MD`, so the answer agrees.
- Consolidation.Consolidate: every read succeeds. `read` is total and `memory` is a text or `None`. In Python, `consolidate` aborts before it writes anything if MEMORY.md (consolidate.py:36) or a journal (consolidate.py:68) cannot be read: an undecodable file raises `UnicodeDecodeError`, and a directory named `x.md` under `sessions/` raises `IsADirectoryError`. The model has no outcome for that abort.
