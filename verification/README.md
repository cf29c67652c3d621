# mcp-client-ollama retrieval core, modelled in Dafny

This project models the core of a retrieval-augmented-generation backend.
Markdown files are read and cut into overlapping chunks of at most 1000
characters. Each chunk gets an embedding vector and the metadata
`{source, chunk_index, last_updated}`. The chunks are stored in a vector
collection under the id `"{source}_{chunk_index}"`. Two HTTP handlers work
on the whole collection: one lists the documents grouped by source file,
the other deletes every chunk of one source file.

Modules:

- `PyText` (`python_text.dfy`): the Python semantics the code relies on.
  - Slice and search bounds: a negative bound counts from the end, and an out-of-range bound is clamped.
  - `str.rfind` for one character.
  - `str(int)` and its inverse.
- `Chunker` (`chunker.dfy`): `DocumentProcessor.chunk_document`, in two forms.
  - As written: the pure function `Run`, bounded by a number of loop rounds, and the loop `ChunkDocument` proved equal to it.
  - Corrected: `Spans` / `ChunkText`.
  - The two findings below: a loop that never ends, and text that no chunk holds.
- `Records` (`records.dfy`): a collection entry, its metadata, and how its id is built and read back.
- `Ingest` (`ingest.dfy`): `generate_embeddings` and the metadata loop of `process_markdown_file`.
  - The embedding call is a function parameter.
  - The file's contents and its modification time are parameters.
- `Store` (`store.dfy`): the `VectorStore` class.
  - The collection is a sequence of records, kept in database order.
  - Each operation is specified by a function on that sequence: `Filter`, `Find`, `DropIds`, `ReplaceId`, `NewRecords`.
  - The ghost field `deleteRequests` logs every delete request sent to the collection.
- `Api` (`api.dfy`): the bodies of `list_documents` and `delete_document`, without HTTP.
- `Wrappers` (`wrappers.dfy`): `Option` and `Result`.

Three facts about the code shape the model:

- `DocumentProcessor.__init__` fixes chunk size and overlap at 1000 and 200 (server/document_processor.py:11-12). They are constants of the model, not parameters of the chunker.
- The chunk loop does not always end and does not always cover the text. See "## Findings".
- The code does not show what the collection does when an added id already exists. The model leaves that case unspecified and excludes it with `FreshIds`; see "## Left out".

## Model

| member | source | states |
|---|---|---|
| PyText.ClampIndex | server/document_processor.py:35 | A Python slice bound lands in [0, len]. A bound already inside is kept. |
| PyText.SliceFacts | server/document_processor.py:35 | A slice with bounds inside the text is the plain subsequence. No slice is longer than the gap between its bounds. |
| PyText.Slice | server/document_processor.py:35 | A Python slice is the piece of the text that starts at the clamped lower bound and ends at the clamped upper bound, so its length is exactly max(0, b - a) for the clamped bounds a and b; crossed bounds give the empty string. It also models the slice at line 24. |
| PyText.LastIndexOf | server/document_processor.py:28-29 | It returns -1 exactly when the character is absent from the range. Otherwise it returns an index in the range holding the character, with none after it. |
| PyText.LastIndexOfIs | server/document_processor.py:28-29 | An occurrence with none after it in the range is the one found. |
| PyText.RFind | server/document_processor.py:28-29 | `rfind` with clamped bounds returns -1 or an in-range index holding the character, with none after it. On in-range bounds, -1 means the character is absent. |
| PyText.NatToDecimal | server/vector_store.py:29 | `str(n)` is a non-empty string of digits, with no leading zero: it starts with '0' exactly when `n` is 0. |
| PyText.DecimalRoundTrip | server/vector_store.py:29 | Reading back the digits of `str(n)` gives `n`. |
| PyText.IntToDecimal | server/vector_store.py:29 | `str(i)` is non-empty and holds no '_'. |
| PyText.IntDecimalRoundTrip | server/vector_store.py:29 | Parsing `str(i)` gives `i` back, for negative `i` too. |
| Chunker.LastBoundary | server/document_processor.py:28-30 | The backward scan for the last '.' or newline returns -1 or an index inside the window. `LastBoundarySpec` states the rest. |
| Chunker.LastBoundarySpec | server/document_processor.py:28-30 | The last boundary ('.' or newline) in the window is -1 exactly when there is none. Otherwise it is a boundary with none after it. |
| Chunker.LastBoundaryIs | server/document_processor.py:28-30 | A boundary with none after it in the window is the one found. |
| Chunker.MaxRFindIsLastBoundary | server/document_processor.py:28-30 | The larger of the two `rfind` results is the last boundary in the clamped window. |
| Chunker.SplitPoint | server/document_processor.py:21-33 | The split point always lies in (start, start + 1000]. |
| Chunker.SplitPointOfRFind | server/document_processor.py:27-33 | The split point equals the code's own computation: two `rfind`s, `max`, then the guard. This holds for any cursor, including negative ones. |
| Chunker.SplitPointCases | server/document_processor.py:28-33 | A hard cut at `end` happens exactly when no boundary follows the cursor. A negative cursor on a long text always gets a hard cut. A split short of `end` is at the last boundary of the window. |
| Chunker.Step | server/document_processor.py:19-36 | A round is the last one exactly when `start + 1000 >= len`. Otherwise the next cursor is at least -200. |
| Chunker.Run | server/document_processor.py:19-38 | The loop run for a bounded number of rounds takes at most one slice per round. |
| Chunker.SpanText | server/document_processor.py:35 | There is one chunk per span. `SpanTextAt` says which slice each chunk is. |
| Chunker.SpanTextAt | server/document_processor.py:35 | Chunk j is the Python slice at span j's bounds. |
| Chunker.SpanTextInRange | server/document_processor.py:35 | When the bounds lie inside the text, each chunk is the plain subsequence. |
| Chunker.ChunkDocument | server/document_processor.py:14-38 | The loop returns the slices of `Run`, and whether it left through `break` within the round budget. |
| Chunker.RunShape | server/document_processor.py:19-36 | The first span starts at the cursor. Every span has lo < hi <= lo + 1000 and lo >= -200; the Python slice at those bounds can still be empty. Each span starts 200 before the previous one ends. |
| Chunker.RunLastSlice | server/document_processor.py:23-25 | When the loop as written finishes, on any text, its last span ends at the end of the text and fits in one window. So the last chunk is the suffix `content[start:]`. |
| Chunker.RunChunkSizes | server/document_processor.py:21-35 | No chunk the loop produces is longer than 1000 characters. |
| Chunker.RunShortText | server/document_processor.py:23-25 | A text of at most 1000 characters gives no chunk when empty, and otherwise exactly itself. |
| Chunker.HardCutAdvance | server/document_processor.py:32-36 | With no boundary after the cursor, the cut is at `start + 1000` and the cursor moves to `start + 800`. |
| Chunker.AllDotsOverlap | server/document_processor.py:28-36 | On a text of dots longer than 1000, the first chunk is its first 999 characters, and the second starts 200 before that chunk ends. |
| Chunker.StallAt500 | server/document_processor.py:32-36 | From cursor 500 on `StallText`, the loop never finishes. |
| Chunker.StallForever | server/document_processor.py:32-36 | From cursor 0 on `StallText`, the loop never finishes, however many rounds it runs. |
| Chunker.GapTextIsGapShaped | server/document_processor.py:28-33 | `GapText` has one boundary after the cursor in its first window, at 100. |
| Chunker.GapRun | server/document_processor.py:19-36 | On such a text, the loop cuts at [0,100), [-100,900) and [700,1500), and finishes. |
| Chunker.GapDropsText | server/document_processor.py:28-36 | The chunks are `c[:100]`, `""` and `c[700:]`. Together they are shorter than the text, so characters 100..699 are in no chunk. |
| Chunker.FixedSplitPoint | server/document_processor.py:32-33 | The corrected split lies in (start + 200, start + 1000], so the cursor always moves forward. |
| Chunker.FixedSplitAgrees | server/document_processor.py:32-33 | Wherever the original split already lies past start + 200, the corrected split equals it. |
| Chunker.Spans | server/document_processor.py:19-38 | The corrected spans are empty exactly when the cursor is at or past the end. The first span starts at the cursor. |
| Chunker.SpansCut | server/document_processor.py:32-36 | Before the last window, the corrected spans are the span up to the split, then the spans from split - 200. |
| Chunker.SpanBounds | server/document_processor.py:21-35 | Every corrected span lies in the text, is non-empty and is at most 1000 wide. |
| Chunker.SpanOverlap | server/document_processor.py:35-36 | Consecutive corrected spans overlap by exactly 200 characters, and each non-final span is wider than 200. |
| Chunker.SpansLast | server/document_processor.py:23-25 | The last corrected span ends at the end of the text and fits within one window. |
| Chunker.SpansShape | server/document_processor.py:19-36 | All of the above, for every span at once. |
| Chunker.ChunkText | server/document_processor.py:14-38 | The corrected chunker yields one chunk per span, each of 1 to 1000 characters. |
| Chunker.ChunkTextAt | server/document_processor.py:35 | Chunk j is exactly the text between span j's bounds. |
| Chunker.ChunkTextEnds | server/document_processor.py:23-25 | There are no chunks exactly when the text is empty. A text of at most 1000 characters is its own only chunk. The last chunk is a suffix of the text. |
| Chunker.SpansAdvance | server/document_processor.py:35-36 | Each corrected chunk starts strictly after the previous one starts, and before it ends. |
| Chunker.SpansCover | server/document_processor.py:19-36 | Every position from the cursor on lies in some corrected span. |
| Chunker.ChunksCoverContent | server/document_processor.py:14-38 | Every character of the text appears, at its own offset, in some corrected chunk. |
| Chunker.SpansHoldPiece | server/document_processor.py:35-36 | Any piece of at most 201 characters lies inside one corrected span. |
| Chunker.ShortPieceInChunk | server/document_processor.py:35-36 | Any piece of at most 201 characters occurs whole in one corrected chunk. |
| Chunker.ShortPieceSurvives | server/document_processor.py:14-38 | Any piece of at most 201 characters occurs in the joined corrected chunks. |
| Chunker.RunCut | server/document_processor.py:32-36 | One round of the loop before the last window: a slice up to the split, then the rest from split - 200. |
| Chunker.RunMatchesSpans | server/document_processor.py:14-38 | On text where every split lands past start + 200, the loop finishes and cuts exactly the corrected spans. |
| Chunker.RunMatchesChunkText | server/document_processor.py:14-38 | On such text, the loop's chunks are exactly the corrected chunker's chunks. |
| Records.RecordId | server/vector_store.py:29 | An id is the source, then '_', then the chunk index. |
| Records.IdRoundTrip | server/vector_store.py:29 | Splitting an id at its last '_' gives back its source and chunk index, whatever '_'s the source holds. |
| Records.RecordIdInjective | server/vector_store.py:29 | Two ids are equal exactly when their sources and chunk indexes are. |
| Ingest.GenerateEmbeddings | server/document_processor.py:40-55 | There is one embedding per text, in order, and each is the provider's embedding of that text. |
| Ingest.BuildMetadata | server/document_processor.py:70-76 | Chunk i gets `{source: file path, chunk_index: i, last_updated}`. |
| Ingest.ProcessMarkdownFile | server/document_processor.py:57-86 | The result holds the file's chunks, and parallel lists of their embeddings and metadata. |
| Ingest.ProcessedIdsDistinct | server/document_processor.py:70-76 | The chunks of one file get pairwise distinct ids. |
| Store.Filter | server/vector_store.py:50 | The `where` filter keeps at most the records it is given. `FilterSpec` says which ones. The source test at server/api.py:174 uses the same filter. |
| Store.FilterSpec | server/vector_store.py:47-51 | A `where` filter keeps exactly the records whose metadata match it. |
| Store.FilterPartition | server/api.py:172-176 | The records of a source and the rest together are the whole collection. |
| Store.FilterKeepsAll | server/api.py:172-176 | When every record passes a filter, the filter keeps the collection unchanged. |
| Store.Ids | server/vector_store.py:102 | The collection's ids are listed in collection order. |
| Store.Find | server/vector_store.py:90 | A lookup by id finds nothing exactly when no record has that id. Otherwise it finds a record with that id. |
| Store.FindUnique | server/vector_store.py:90-93 | With distinct ids, looking up a record's id finds that record. |
| Store.DropIds | server/vector_store.py:82 | `delete(ids)` never adds records. `DropIdsSpec` says which ones it keeps. |
| Store.DropIdsSpec | server/vector_store.py:82 | A delete keeps exactly the records whose id is not listed. |
| Store.DropIdsAppend | server/vector_store.py:82 | A delete acts on each part of the collection independently. |
| Store.DropIdsKeepsDistinct | server/vector_store.py:82 | A delete keeps ids distinct. |
| Store.DropAllIds | server/vector_store.py:102-104 | Deleting every id of the collection empties it. |
| Store.DropAbsentId | server/vector_store.py:82 | Deleting an id no record has changes nothing. |
| Store.DropOne | server/vector_store.py:82 | Deleting an id held by one record removes that record and nothing else, keeping order. |
| Store.DeleteThenFind | server/vector_store.py:82 | After a delete, the id is gone. Other ids are still found, and, with distinct ids, found unchanged. |
| Store.ReplaceId | server/vector_store.py:69-74 | `update` keeps the number of records. `ReplaceKeepsIds` and `ReplaceThenFind` state the rest. |
| Store.ReplaceKeepsIds | server/vector_store.py:69-74 | An update leaves the list of ids unchanged, so it keeps them distinct. |
| Store.ReplaceThenFind | server/vector_store.py:69-74 | After an update, the id finds the new record. |
| Store.ReplaceThenFindOther | server/vector_store.py:69-74 | An update changes no lookup of another id. |
| Store.NewRecords | server/vector_store.py:29-35 | An add builds one record per chunk. |
| Store.AddKeepsDistinct | server/vector_store.py:29-35 | Adding a batch with fresh, pairwise distinct ids keeps all ids distinct. |
| Store.AddThenFindNew | server/vector_store.py:29-35 | After an add, each new id finds its chunk, metadata and embedding. |
| Store.AddThenFindOld | server/vector_store.py:29-35 | An add changes no lookup of an id that was already there. |
| Store.VectorStore.constructor | server/vector_store.py:7-21 | Opening a store hands back the persisted collection with the records it already holds (none for a fresh directory). No delete has been sent yet. |
| Store.VectorStore.AddDocuments | server/vector_store.py:23-39 | The batch is appended to the collection, and ids stay distinct. |
| Store.VectorStore.SearchSimilar | server/vector_store.py:41-60 | It returns three parallel lists of `min(n, eligible)` hits. Every hit matches the filter. Each distance is the distance of the query to that record's embedding. |
| Store.VectorStore.UpdateDocument | server/vector_store.py:62-77 | The record with the id is replaced in place. Nothing else changes, and no delete is sent. |
| Store.VectorStore.DeleteDocument | server/vector_store.py:79-85 | Exactly one delete request `[id]` is sent, and every record with that id is removed. |
| Store.VectorStore.GetDocumentById | server/vector_store.py:87-97 | It fails exactly when no record has the id; that is the `[0]` index error. Otherwise it returns the document and metadata of the record with the id. |
| Store.VectorStore.ClearCollection | server/vector_store.py:99-108 | The collection ends up empty. A delete of all ids is sent only when the collection was not empty. |
| Store.VectorStore.ClearAllEmbeddings | server/vector_store.py:137-146 | The same as clearing the collection. |
| Store.VectorStore.ListCollectionsAndEmbeddings | server/vector_store.py:110-127 | The count equals the number of records, and ids and metadata are listed in order. The embeddings are present exactly when the collection returned them. |
| Api.AddToGroup | server/api.py:144-154 | After one loop pass, the record's source is a key of the listing. |
| Api.AddToGroupStep | server/api.py:144-154 | One pass adds the record's source to the keys and leaves every other source's entry as it was. It appends the record's chunk to its source's list. The time stamp is set when the source is first seen and never overwritten. |
| Api.GroupSize | server/api.py:143-154 | The listing after the loop (`Group`, one `AddToGroup` pass per record) never has more sources than there are records. |
| Api.ListDocuments | server/api.py:133-156 | The loop builds exactly the grouping `Group` of the collection. |
| Api.GroupKeys | server/api.py:143-150 | The listing has one key per source present in the collection, and no other key. |
| Api.GroupEntries | server/api.py:143-154 | A source's entry lists exactly that source's chunks, in collection order, and its time stamp is that of its first chunk. |
| Api.SourceOrderIsKeys | server/api.py:146-150 | The first-appearance order of the sources lists each key of the listing once. |
| Api.GroupTotal | server/api.py:143-154 | Every record is listed exactly once: the chunk counts of all sources add up to the size of the collection. |
| Api.DeleteSourceDocuments | server/api.py:162-181 | It deletes exactly the records of the source, one request per record, in collection order. The count returned is their number, and ids stay distinct. |
| Api.DeleteStepMatch | server/api.py:173-176 | Deleting the id of a record of the source removes just that record. |
| Api.DeleteStepOther | server/api.py:173-174 | A record of another source stays where it is. |
| Api.DeleteSourceOutcome | server/api.py:172-176 | No record of the source remains, every other record does, and the count plus what remains equals what there was. |
| Api.DeleteUnknownSource | server/api.py:172-181 | The count is 0 exactly when no record has the source, and then the collection is unchanged. |

## Left out

- HTTP: the FastAPI routes, their response dictionaries and their mapping of exceptions to status 500 are not modelled. The handler bodies are modelled. `process_documents` is not modelled: it calls `process_directory`, whose directory walk is not modelled, and then the modelled `add_documents` once per file. `generate_context` is not modelled: it embeds the query, calls `search_similar`, and turns each distance into the floating-point score `1 - distance`. `/health` returns a constant.
- File system: reading the file, `Path.stat().st_mtime` and the `os.walk` of `process_directory` are not modelled. The content and the time stamp are parameters of `Ingest.ProcessMarkdownFile`.
- The embedding provider: the OpenAI call is the parameter `embed`. Its failure path (an exception re-raised) is not modelled.
- Floating point: embeddings are sequences of `real`, and the distance function is a parameter.
- Ranking: the HNSW cosine index and its persistence are not modelled.
- `print` calls and `asyncio` are left out.
- `list_collections`, `config.py` and `__main__.py` are not part of this model. The internals of `_get_or_create_collection` are not modelled either: the collection it returns is the `existing` argument of the `VectorStore` constructor.
- Store.Where: models a `metadata_filter` that is absent or tests one metadata field for equality. Chromadb's multi-field filters and its operators (`$and`, `$in`, `$gt`, …) are not modelled; no caller in the code passes one.
- Store.VectorStore.SearchSimilar: returns the first `n` matching records in collection order. It does not model nearest-first ranking, because the similarity index is outside the code.
- Store.VectorStore.AddDocuments: requires equal list lengths and ids that are fresh and pairwise distinct. What the database does with a repeated id or ragged lists is outside the code.
- Store.VectorStore.UpdateDocument: requires the id to exist. What the database does with an unknown id is outside the code.
- Chunker.ChunkDocument: runs at most `maxRounds` rounds and reports whether the loop ended. Without such a bound the loop cannot be written, because it does not always end (see "## Findings").
- Ingest.ProcessMarkdownFile: uses the corrected chunker `Chunker.ChunkText`, not the loop as written. The two agree on every text where each split lands past start + 200 (`Chunker.RunMatchesChunkText`).
- Chunker.ShortPieceSurvives: stated for pieces of at most 201 characters, for example a section heading. A longer piece can straddle two chunks, so the corrected chunker does not keep it whole.
- Api.ListDocuments: returns a `map`, so it does not capture the key order of the Python dictionary. `Api.SourceOrder` gives that order separately.

## Findings

| source | as written | input that shows it | evidently intended | confidence | as-written member | corrected member |
|---|---|---|---|---|---|---|
| server/document_processor.py:32-36 | The guard accepts any boundary after `start`. A boundary at most 200 past `start` sends the cursor back to where it was, or before it. | `StallText()`: 1701 characters whose only '.' is at index 700. The cursor goes 0, 500, 500, … and the loop never ends. | The cursor always moves forward: a boundary counts only when it lies more than 200 past `start`; otherwise the cut is hard. | not executed | Chunker.StallForever | Chunker.RunMatchesChunkText |
| server/document_processor.py:28-36 | After a split near the start, the cursor goes negative. `rfind` and the slice then count from the end of the text, so the window is empty and the chunk is `""`. | `GapText()`: 1500 characters whose only '.' is at index 100. The chunks are `c[:100]`, `""` and `c[700:]`, so characters 100..699 are lost. | Every character lies in some chunk. | not executed | Chunker.GapDropsText | Chunker.ChunksCoverContent |
