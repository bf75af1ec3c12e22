# Health-Assistant-RAG ingestion, modelled in Dafny

This project models the ingestion script `create_vector.py` of the
Health-Assistant-RAG system. The script turns a directory of patient PDFs
into vector records for a Pinecone index:

- every document's text is split into overlapping word windows by `chunk_text`;
- each chunk is embedded and becomes one record:
  - the id is `<file name>-chunk-<i>`;
  - the metadata holds the source file, the chunk index, the first 500
    characters of the chunk and the patient name (the file name without its
    extension);
- the records whose embedding succeeded are upserted in batches of 100 by
  `upsert_vectors_to_pinecone`.

Modules:

- `Text` (`text.dfy`) models Python's `str.split()`, `" ".join` and `str.strip()` on whitespace.
- `Chunker` (`chunker.dfy`) models `chunk_text`:
  - the loop as written, kept in `ChunkText`, `CollectChunks` and `ChunkAt`;
  - a loop-free reference definition of the chunks, `Chunks`;
  - the proof that the two agree.
- `RecordIds` (`ids.dfy`) models `str(i)` and the record id, with a parser that inverts the id.
- `Paths` (`paths.dfy`) models `os.path.splitext`, which names the patient.
- `IndexWriter` (`batching.dfy`) models the filtering and batching of `upsert_vectors_to_pinecone`. It returns the requests in the order they are sent.
- `Ingestion` (`ingest.dfy`) models the `__main__` loop. Text extraction and embedding are function parameters.
- `Wrappers` (`wrappers.dfy`) holds `Option` and `Result`.
- `Arith` (`arith.dfy`) holds `Min`, `Max` and the ceiling division used by the counts.

Chunk counts and batch counts are stated with `Arith.CeilDiv(a, b)`, the ceiling of `a / b`. `Arith.CeilDivIsQuotient` proves it equal to `(a + b - 1) / b`.

## Model

| member | source | states |
|---|---|---|
| Text.Words | create_vector.py:37 | `text.split()` with no separator; its meaning is stated by `Text.WordsAreWords`, `Text.WordsEmptyIffBlank` and `Text.WordsOfJoin` |
| Text.JoinSpace | create_vector.py:42 | `" ".join(words)`; `Text.WordsOfJoin` shows that `split` undoes it and `Text.JoinNotBlank` that a join of words is not blank |
| Text.Strip | create_vector.py:43 | `str.strip()` on whitespace; `Text.TrimLeftSpec`, `Text.TrimRightSpec` and `Text.StripEmpty` say what it removes and when nothing is left |
| Text.WordsAreWords | create_vector.py:37 | every piece `text.split()` yields is non-empty and free of whitespace |
| Text.WordsEmptyIffBlank | create_vector.py:37 | `text.split()` is empty exactly when the text is empty or all whitespace |
| Text.WordsOfJoin | create_vector.py:42 | splitting a single-space join of words gives back exactly those words (`split` inverts `" ".join`) |
| Text.TrimLeftSpec | create_vector.py:43 | `lstrip` removes exactly the leading whitespace and stops at the first other character |
| Text.TrimRightSpec | create_vector.py:43 | `rstrip` removes exactly the trailing whitespace and stops at the last other character |
| Text.StripEmpty | create_vector.py:43 | `chunk.strip()` is falsy exactly when the chunk holds nothing but whitespace |
| Text.JoinNotBlank | create_vector.py:42-43 | a join of at least one word survives `strip()` |
| Chunker.PySlice | create_vector.py:42 | `words[start:end]` follows Python's slice rules: both bounds clamped to the length, an empty slice when the stop is below the start, and a negative stop counted from the end |
| Chunker.KeptWindow | create_vector.py:41-44 | what one iteration at `start` appends; `Chunker.KeptWindowWhole` and `Chunker.KeptIsWhole` show it is the whole window whenever the window starts inside the text |
| Chunker.ChunkAt | create_vector.py:41-44 | one loop iteration appends at most one chunk; when the window starts inside the text and `chunk_size >= 1`, it appends exactly the joined window `words[start : start + chunk_size]` |
| Chunker.CollectChunks | create_vector.py:39-45 | the `while start < len(words)` loop appends, in order, what each iteration at start `0, step, 2*step, ...` appends |
| Chunker.ChunkText | create_vector.py:36-46 | `chunk_text` fails (does not terminate in the source) exactly when there are words and `overlap >= chunk_size`; text without words gives `[]`; a configuration with `chunk_size >= 1` and `overlap < chunk_size` gives the reference chunks, `ceil(n / (chunk_size - overlap))` of them |
| Chunker.Chunks | create_vector.py:39-45 | the loop-free reference: chunk `k` is the join of the window starting `k*(chunk_size - overlap)` words in; `Chunker.LoopIsChunks` proves the loop computes it, and `Chunker.ChunkWords` and `Chunker.ChunksCoverAllWords` describe its windows |
| Chunker.LoopIsChunks | create_vector.py:39-45 | for `chunk_size >= 1` and `overlap < chunk_size` the loop as written computes exactly the loop-free reference chunks |
| Chunker.KeptIsWhole | create_vector.py:43-44 | the `if chunk.strip()` filter never drops a window: every window that starts inside the text has a word |
| Chunker.KeptWindowWhole | create_vector.py:41-44 | a window that starts inside the text is kept, whole |
| Chunker.LoopLength | create_vector.py:39-45 | a loop appending one item per start runs `ceil((n - s) / step)` times |
| Chunker.LoopElement | create_vector.py:39-45 | item `k` of the loop is what the iteration `k` steps in appended, and that start is inside the text |
| Chunker.ChunkWindow | create_vector.py:41-42 | chunk `k` splits back into the words of the window starting `k` steps in, which starts inside the text |
| Chunker.ChunkWords | create_vector.py:41-42 | chunk `k` re-splits into exactly `words[k*step : min(k*step + chunk_size, n)]`, so it has between 1 and `chunk_size` words |
| Chunker.NoChunksIffBlank | create_vector.py:37-40 | empty or whitespace-only text, and only such text, yields no chunks |
| Chunker.SingleChunkIff | create_vector.py:39-45 | exactly one chunk iff `0 < n <= chunk_size - overlap` |
| Chunker.ConsecutiveChunksOverlap | create_vector.py:41-45 | when chunk `k` is full, its last `overlap` words are the first `overlap` words of chunk `k + 1` |
| Chunker.ChunksCoverAllWords | create_vector.py:40-45 | every word index `j < n` lies in some chunk `k`, at position `j - k*step` |
| Chunker.TailChunk | create_vector.py:41-42 | a chunk whose window reaches past the last word holds the rest of the text |
| Chunker.FirstChunkWhole | create_vector.py:41-42 | when `n <= chunk_size`, the first chunk holds all the words |
| Chunker.SecondChunkFromStep | create_vector.py:39-45 | when `step < n <= chunk_size`, there is a second chunk, holding the words from `step` on |
| Chunker.ShortTextRepeatsTail | create_vector.py:39-45 | a text of `step < n <= chunk_size` words gives a whole-text first chunk plus a second chunk repeating its tail, and exactly these two when `n <= 2 * step` |
| Arith.CeilDivBounds | create_vector.py:39-45 | the chunk and batch counts are the least `q` with `n <= q * step`, for every `n` including 0 |
| Arith.CeilDivIsQuotient | create_vector.py:39-45 | the count equals `(n + step - 1) / step` |
| RecordIds.NatToString | create_vector.py:114 | `str(i)` is a non-empty decimal numeral without leading zeros |
| RecordIds.ParseNatToString | create_vector.py:114 | parsing `str(i)` gives back `i` |
| RecordIds.ChunkId | create_vector.py:114 | the id `f"{file_name}-chunk-{i}"`; `RecordIds.ParseChunkIdRoundTrip` and `RecordIds.ChunkIdInjective` show it determines and is determined by the file name and index |
| RecordIds.ParseChunkIdRoundTrip | create_vector.py:114 | the id `f"{file_name}-chunk-{i}"` can be taken apart again into `file_name` and `i` |
| RecordIds.ChunkIdInjective | create_vector.py:114 | two ids are equal only for the same file name and chunk index |
| Paths.LastIndexOf | create_vector.py:110 | finds the last occurrence of a character, or reports that there is none |
| Paths.SplitExt | create_vector.py:110 | `splitext` cuts the name into a root and an extension that concatenate back; the extension is empty or one dot followed by no dot or separator |
| Paths.PatientName | create_vector.py:110 | `os.path.splitext(file_name)[0]`; `Paths.SplitExtOfStem` and `Paths.SplitExtNoDot` say which name it gives |
| Paths.SplitExtOfStem | create_vector.py:110 | `splitext(stem + ext)` is `(stem, ext)` for a plain stem and an extension, so the patient name is the stem |
| Paths.SplitExtNoDot | create_vector.py:110 | a name without a dot is its own patient name |
| IndexWriter.EffectiveBatchSize | create_vector.py:82 | the flush test `len(batch) >= batch_size` behaves as batch size `max(1, batch_size)`: the size itself when it is at least 1, and 1 otherwise |
| IndexWriter.FlushTest | create_vector.py:82 | on a non-empty batch, `len(batch) >= batch_size` holds exactly when the length reaches the effective batch size |
| IndexWriter.EntryOf | create_vector.py:74-81 | the entry one record contributes: none without a vector, else its id, vector and metadata; `IndexWriter.PresentMembers` states it for a whole listing |
| IndexWriter.Present | create_vector.py:74-81 | the entries that survive the `vector is None` filter, in order; `IndexWriter.PresentMembers`, `IndexWriter.PresentLength`, `IndexWriter.PresentAllEmbedded` and `IndexWriter.PresentDistinct` give its meaning |
| IndexWriter.Batches | create_vector.py:82-86 | the reference batching; `IndexWriter.BatchesFlatten`, `IndexWriter.BatchSizes` and `IndexWriter.BatchCount` show it cuts the entries, in order, into full batches and one shorter last batch |
| IndexWriter.AddRecord | create_vector.py:74-84 | one iteration skips a record without a vector and otherwise appends its entry; full batches are sent and the pending one stays shorter than the batch size |
| IndexWriter.SendRest | create_vector.py:85-86 | the final flush completes the reference batching of all entries |
| IndexWriter.UpsertVectors | create_vector.py:72-86 | the requests sent are the reference batches of the embedded records; together they hold every embedded record once, in order; each holds 1 to `batch_size` entries; there are `ceil(M / batch_size)` of them, none when `M = 0` |
| IndexWriter.BatchesFlatten | create_vector.py:82-86 | the batches concatenate back to the entries they were cut from |
| IndexWriter.BatchSizes | create_vector.py:82-86 | every batch is non-empty and at most `batch_size` long; all but the last are full |
| IndexWriter.BatchCount | create_vector.py:82-86 | `M` entries are sent in `ceil(M / batch_size)` requests |
| IndexWriter.BatchesOfFull | create_vector.py:82-86 | full batches followed by one short batch are exactly the reference batches of their concatenation |
| IndexWriter.PresentMembers | create_vector.py:74-81 | an entry is sent iff some record has that id, metadata and a vector equal to its values |
| IndexWriter.PresentAllEmbedded | create_vector.py:74-81 | when every record has a vector, entry `k` is record `k` |
| IndexWriter.PresentLength | create_vector.py:74-76 | at most one entry per record, and one for each exactly when all records have a vector |
| IndexWriter.PresentDistinct | create_vector.py:77-83 | records with distinct ids give entries with distinct ids |
| Ingestion.Preview | create_vector.py:119 | `chunk[:500]` is a prefix of the chunk, at most 500 long, the whole chunk when it is short |
| Ingestion.ChunkRecord | create_vector.py:113-122 | the record of chunk `i`; `Ingestion.DocumentRecordFields` states its id, vector and metadata |
| Ingestion.DocumentRecords | create_vector.py:112-122 | the records of one document, one per chunk in order; `Ingestion.DocumentRecordCount`, `Ingestion.DocumentRecordFields` and `Ingestion.DocumentIdsDistinct` give their number, fields and distinct ids |
| Ingestion.DocumentChunks | create_vector.py:101-106 | no chunks for an empty text, otherwise `chunk_text(text)` with the defaults; `Ingestion.ProcessDocument` and `Ingestion.DocumentRecordCount` state it |
| Ingestion.Accumulate | create_vector.py:96-122 | the records of every listed document in listing order; `Ingestion.CollectRecords`, `Ingestion.AccumulateAppend` and `Ingestion.AccumulateWellKeyed` give its meaning |
| Ingestion.BuildRecords | create_vector.py:112-122 | the `enumerate(chunks)` loop builds record `i` from chunk `i`, for every chunk in order |
| Ingestion.ProcessDocument | create_vector.py:101-106 | an empty extracted text contributes no records; otherwise the records of `chunk_text(text)` are built |
| Ingestion.CollectRecords | create_vector.py:96-122 | the main loop accumulates the records of every document in listing order |
| Ingestion.Ingest | create_vector.py:96-124 | the whole script sends the reference batches of all embedded records, each exactly once, in listing and chunk order |
| Ingestion.DocumentRecordCount | create_vector.py:102-112 | a document yields `ceil(n / 700)` records for `n` words, and none exactly when its text is blank |
| Ingestion.DocumentRecordFields | create_vector.py:110-121 | record `i` has id `file_name + "-chunk-" + str(i)`, the embedding of chunk `i`, metadata `source = file_name`, `chunk = i`, a text that is the chunk's prefix of length `min(500, len(chunk))`, and the name before the extension as patient |
| Ingestion.DocumentIdsDistinct | create_vector.py:112-114 | the ids within one document are pairwise distinct |
| Ingestion.AccumulateAppend | create_vector.py:96-122 | the records of a listing are those of its parts, in turn |
| Ingestion.DocumentsKeyed | create_vector.py:112-118 | record `k` of any document `f` is keyed by `f` and `k` |
| Ingestion.AccumulateWellKeyed | create_vector.py:114-118 | every accumulated record's id is `<source>-chunk-<chunk>` for its own metadata, and its source is a listed file |
| Ingestion.RecordIdsMatchMetadata | create_vector.py:114-118 | every record id parses back to the source and chunk index of its metadata |
| Ingestion.AccumulateDistinctKeys | create_vector.py:97-122 | with distinct file names, no two records have the same source and chunk index |
| Ingestion.IdsFromDistinctKeys | create_vector.py:114 | records with distinct source and chunk pairs have distinct ids |
| Ingestion.UniqueIds | create_vector.py:97-124 | with distinct file names all record ids are unique, and so are the ids of the entries upserted: no upsert overwrites another chunk |
| Ingestion.PatientOfDocument | create_vector.py:110-120 | every record of `stem + ext` is filed under the patient `stem` |
| Ingestion.AliceExample | create_vector.py:106-120 | a 1000-word `alice.pdf` gives two records, `alice.pdf-chunk-0` and `alice.pdf-chunk-1`, both for patient `alice` |

## Chunk counts at the edges

The loop emits a window at every start below `n`, the number of words.

- There is exactly one chunk only when `0 < n <= chunk_size - overlap` (`Chunker.SingleChunkIff`).
- A text of `chunk_size - overlap < n <= chunk_size` words gets at least two chunks (`Chunker.ShortTextRepeatsTail`). The first holds the whole text and the second repeats its tail. There are exactly two when also `n <= 2 * (chunk_size - overlap)`, which holds for every such text under the defaults 800 and 100; with `chunk_size` 800 and `overlap` 600, an 800-word text gives 4.
- The count is `ceil(n / (chunk_size - overlap))` (`Chunker.ChunkText`). With the defaults, a 1500-word text gives 3 chunks.
- With `overlap >= chunk_size` the loop never ends on a text with words. The model returns `Failure(NonTerminating)` for that case, and `[]` for text without words, as the code does.

## Left out

- `extract_text` (create_vector.py:26-31) is the parameter `extract`, a total function from the document's name to its text. PDF parsing, page concatenation and the exceptions PyMuPDF may raise are not modelled.
- `embed_text` (create_vector.py:51-67) is the parameter `embed`. It returns `Some(vector)` or `None`; the Gemini call, the response-shape probing and the logging are not modelled.
- Vectors are an opaque type parameter. Nothing is computed on their float contents.
- The environment and client setup (create_vector.py:1-21) is I/O and configuration.
- The directory walk `os.listdir` and `os.path.join` (create_vector.py:93-98) are I/O. The documents are given as a sequence of file names, and `extract` receives the file name rather than the joined path.
- The Pinecone `upsert` call is a foreign service. The model returns the sequence of requests in the order they are sent; what the index does with them (overwrite by id) is not modelled.
- A failing `vector_index.upsert` call (create_vector.py:83, 86) raises and ends the script after the requests already sent. `IndexWriter.UpsertVectors` and `Ingestion.Ingest` treat every call as returning normally.
- `embed` is a function of the chunk text, so two equal chunks get the same vector or the same `None`. The real embedding call can answer differently each time it is made.
- The `print` calls are output only.
- `frontend.py` is not part of this model.
- Chunker.ChunkText: for `chunk_size < 1` with `overlap < chunk_size`, the contract states only that the call succeeds. What the loop then appends is stated on `Chunker.CollectChunks` and `Chunker.ChunkAt`. Python's negative-stop slicing (`Chunker.PySlice`) and the `strip()` filter can drop windows there.
- Ingestion.DocumentRecordCount: the count holds for the default configuration used by the script (800 words, overlap 100). Other configurations are covered by `Chunker.ChunkText`.
- The source does not guard against two files with the same name. `Ingestion.UniqueIds` assumes distinct names, which `os.listdir` guarantees for one directory.
