/**
 * The ingestion script: every listed document is turned into text, the text
 * is chunked, each chunk is embedded and becomes one record keyed
 * `<file name>-chunk-<index>`, and all records are finally upserted.
 *
 * Text extraction and embedding are parameters: `extract` maps a file
 * name to the text `extract_text` returns for the file of that name in the
 * data folder, `embed` stands for `embed_text`, `None` meaning that the
 * embedding call failed.
 */
module Ingestion {
  import opened Wrappers
  import opened Arith
  import opened Text
  import opened Chunker
  import opened RecordIds
  import opened Paths
  import opened IndexWriter

  /** How much of a chunk's text is stored in its metadata. */
  const PreviewLength: nat := 500

  /** The metadata stored with a vector. */
  datatype Metadata = Metadata(source: string, chunk: nat, text: string, patientName: string)

  /** `chunk[:500]`. */
  function Preview(chunk: string): (p: string)
    ensures p <= chunk && |p| <= PreviewLength
    ensures |chunk| <= PreviewLength ==> p == chunk
    ensures |chunk| >= PreviewLength ==> |p| == PreviewLength
  {
    chunk[..Min(PreviewLength, |chunk|)]
  }

  /** The record built for chunk `i` of the document `fileName`. */
  function ChunkRecord<V>(fileName: string, i: nat, chunk: string, embed: string -> Option<V>): Record<V, Metadata>
  {
    Record(ChunkId(fileName, i), embed(chunk), Metadata(fileName, i, Preview(chunk), PatientName(fileName)))
  }

  /** The records of one document, one per chunk, in chunk order. */
  function DocumentRecords<V>(fileName: string, chunks: seq<string>, embed: string -> Option<V>): seq<Record<V, Metadata>>
  {
    seq(|chunks|, (i: int) requires 0 <= i < |chunks| => ChunkRecord(fileName, i, chunks[i], embed))
  }

  /** The chunks of an extracted text with the script's defaults; an empty text is skipped. */
  function DocumentChunks(text: string): seq<string>
  {
    if |text| == 0 then [] else Chunks(text, DefaultChunkSize, DefaultOverlap)
  }

  /** The records of one document as a function of its file name. */
  function Documents<V>(extract: string -> string, embed: string -> Option<V>): string -> seq<Record<V, Metadata>>
  {
    (f: string) => DocumentRecords(f, DocumentChunks(extract(f)), embed)
  }

  /** The records of the listed documents, one document after the other. */
  function Accumulate<R>(files: seq<string>, doc: string -> seq<R>): seq<R>
  {
    if |files| == 0 then [] else Accumulate(files[..|files| - 1], doc) + doc(files[|files| - 1])
  }

  /** The records of all documents, in listing order and, within a document, in chunk order. */
  function AllRecords<V>(files: seq<string>, extract: string -> string, embed: string -> Option<V>): seq<Record<V, Metadata>>
  {
    Accumulate(files, Documents(extract, embed))
  }

  // ---------------------------------------------------------------------------
  // The script
  // ---------------------------------------------------------------------------

  /** The `for i, chunk in enumerate(chunks)` loop of one document. */
  method BuildRecords<V>(fileName: string, chunks: seq<string>, embed: string -> Option<V>) returns (records: seq<Record<V, Metadata>>)
    ensures records == DocumentRecords(fileName, chunks, embed)
  {
    records := [];
    var i := 0;
    while i < |chunks|
      invariant 0 <= i <= |chunks| && |records| == i
      invariant forall k :: 0 <= k < i ==> records[k] == ChunkRecord(fileName, k, chunks[k], embed)
    {
      var vector := embed(chunks[i]);
      var metadata := Metadata(fileName, i, Preview(chunks[i]), PatientName(fileName));
      records := records + [Record(ChunkId(fileName, i), vector, metadata)];
      i := i + 1;
    }
  }

  /** One document of the main loop: extract, skip an empty text, chunk, build the records. */
  method ProcessDocument<V>(fileName: string, extract: string -> string, embed: string -> Option<V>)
    returns (records: seq<Record<V, Metadata>>)
    ensures records == DocumentRecords(fileName, DocumentChunks(extract(fileName)), embed)
  {
    var text := extract(fileName);
    if |text| == 0 {
      return [];
    }
    var r := ChunkText(text, DefaultChunkSize, DefaultOverlap);
    records := BuildRecords(fileName, r.value, embed);
  }

  /** The `for file_name in document_files` loop: the records of every document, in listing order. */
  method CollectRecords<V>(files: seq<string>, extract: string -> string, embed: string -> Option<V>)
    returns (allVectors: seq<Record<V, Metadata>>)
    ensures allVectors == AllRecords(files, extract, embed)
  {
    allVectors := [];
    var i := 0;
    while i < |files|
      invariant 0 <= i <= |files|
      invariant allVectors == AllRecords(files[..i], extract, embed)
    {
      assert files[..i + 1][..i] == files[..i];
      var records := ProcessDocument(files[i], extract, embed);
      allVectors := allVectors + records;
      i := i + 1;
    }
    assert files[..i] == files;
  }

  /**
   * The whole script: collect the records of every document, then upsert
   * those with a vector in batches of 100. Every embedded chunk is sent
   * exactly once, in listing and chunk order.
   */
  method Ingest<V>(files: seq<string>, extract: string -> string, embed: string -> Option<V>)
    returns (calls: seq<seq<Entry<V, Metadata>>>)
    ensures calls == Batches(Present(AllRecords(files, extract, embed)), DefaultBatchSize)
    ensures Flatten(calls) == Present(AllRecords(files, extract, embed))
  {
    var allVectors := CollectRecords(files, extract, embed);
    calls := UpsertVectors(allVectors, DefaultBatchSize);
  }

  // ---------------------------------------------------------------------------
  // Properties of the records
  // ---------------------------------------------------------------------------

  /**
   * A document yields one record per chunk of `chunk_text(text)`,
   * `ceil(n / 700)` for `n` words, and none exactly when its text is blank.
   */
  lemma DocumentRecordCount<V>(fileName: string, text: string, embed: string -> Option<V>)
    ensures |DocumentRecords(fileName, DocumentChunks(text), embed)| == CeilDiv(|Words(text)|, DefaultChunkSize - DefaultOverlap)
    ensures |DocumentRecords(fileName, DocumentChunks(text), embed)| == 0 <==> AllSpace(text)
  {
    var n := |DocumentChunks(text)|;
    assert n == CeilDiv(|Words(text)|, DefaultChunkSize - DefaultOverlap) && (n == 0 <==> AllSpace(text)) by {
      if |text| > 0 {
        NoChunksIffBlank(text, DefaultChunkSize, DefaultOverlap);
      }
    }
  }

  /**
   * Record `i` of a document is keyed `<file name>-chunk-<i>`, names the file
   * and the chunk index, stores the first `min(500, |chunk|)` characters of the
   * chunk and files it under the name without its extension.
   */
  lemma DocumentRecordFields<V>(f: string, chunks: seq<string>, embed: string -> Option<V>, i: nat)
    requires i < |chunks|
    ensures var d := DocumentRecords(f, chunks, embed);
      && |d| == |chunks|
      && d[i].id == f + "-chunk-" + NatToString(i)
      && d[i].vector == embed(chunks[i])
      && d[i].metadata.source == f && d[i].metadata.chunk == i
      && d[i].metadata.text <= chunks[i] && |d[i].metadata.text| == Min(500, |chunks[i]|)
      && d[i].metadata.patientName + SplitExt(f).1 == f
  {
  }

  /** The ids of one document's records are pairwise distinct. */
  lemma DocumentIdsDistinct<V>(f: string, chunks: seq<string>, embed: string -> Option<V>)
    ensures DistinctIds(DocumentRecords(f, chunks, embed))
  {
    var d := DocumentRecords(f, chunks, embed);
    forall p, q | 0 <= p < q < |d| ensures d[p].id != d[q].id {
      if d[p].id == d[q].id {
        ChunkIdInjective(f, p, f, q);
      }
    }
  }

  /** Records are accumulated in listing order: the records of a listing are those of its parts, in turn. */
  lemma {:induction false} AccumulateAppend<R>(files: seq<string>, more: seq<string>, doc: string -> seq<R>)
    ensures Accumulate(files + more, doc) == Accumulate(files, doc) + Accumulate(more, doc)
    decreases |more|
  {
    if |more| == 0 {
      assert files + more == files;
    } else {
      var init := more[..|more| - 1];
      assert (files + more)[..|files + more| - 1] == files + init;
      AccumulateAppend(files, init, doc);
    }
  }

  lemma AliceIds()
    ensures ChunkId("alice.pdf", 0) == "alice.pdf-chunk-0"
    ensures ChunkId("alice.pdf", 1) == "alice.pdf-chunk-1"
  {
    assert NatToString(0) == "0" && NatToString(1) == "1";
  }

  lemma AlicePatient()
    ensures PatientName("alice.pdf") == "alice"
  {
    assert IsStem("alice") by {
      assert "alice"[0] != '.';
    }
    SplitExtOfStem("alice", ".pdf");
    assert "alice" + ".pdf" == "alice.pdf";
  }

  /**
   * A 1000-word "alice.pdf" gives two chunks with the default configuration,
   * keyed `alice.pdf-chunk-0` and `alice.pdf-chunk-1`, both filed under the
   * patient "alice".
   */
  lemma AliceExample<V>(text: string, embed: string -> Option<V>)
    requires |Words(text)| == 1000
    ensures var d := DocumentRecords("alice.pdf", DocumentChunks(text), embed);
      && |d| == 2
      && d[0].id == "alice.pdf-chunk-0" && d[1].id == "alice.pdf-chunk-1"
      && d[0].metadata.patientName == "alice" && d[1].metadata.patientName == "alice"
  {
    var d := DocumentRecords("alice.pdf", DocumentChunks(text), embed);
    assert |d| == 2 by {
      DocumentRecordCount("alice.pdf", text, embed);
      assert CeilDiv(1000, 700) == 1 + CeilDiv(300, 700);
    }
    AliceIds();
    AlicePatient();
  }

  /** The document and chunk index a record belongs to, as its metadata states them. */
  function Key<V>(r: Record<V, Metadata>): (string, nat)
  {
    (r.metadata.source, r.metadata.chunk)
  }

  /** Every record is keyed by its metadata and comes from one of `files`. */
  ghost predicate WellKeyed<V>(rs: seq<Record<V, Metadata>>, files: seq<string>)
  {
    forall k :: 0 <= k < |rs| ==> rs[k].metadata.source in files && rs[k].id == ChunkId(rs[k].metadata.source, rs[k].metadata.chunk)
  }

  ghost predicate DistinctKeys<V>(rs: seq<Record<V, Metadata>>)
  {
    forall p, q :: 0 <= p < q < |rs| ==> Key(rs[p]) != Key(rs[q])
  }

  /** Record `k` of a document is keyed by the document and `k`. */
  lemma DocumentKeys<V>(f: string, chunks: seq<string>, embed: string -> Option<V>)
    ensures var d := DocumentRecords(f, chunks, embed);
      forall k :: 0 <= k < |d| ==> Key(d[k]) == (f, k) && d[k].id == ChunkId(f, k)
  {
  }

  lemma WellKeyedAppend<V>(a: seq<Record<V, Metadata>>, d: seq<Record<V, Metadata>>, init: seq<string>, f: string)
    requires WellKeyed(a, init)
    requires forall k :: 0 <= k < |d| ==> Key(d[k]) == (f, k) && d[k].id == ChunkId(f, k)
    ensures WellKeyed(a + d, init + [f])
  {
    var rs := a + d;
    forall k | 0 <= k < |rs|
      ensures rs[k].metadata.source in init + [f] && rs[k].id == ChunkId(rs[k].metadata.source, rs[k].metadata.chunk)
    {
      if k < |a| {
        assert rs[k] == a[k];
      } else {
        assert rs[k] == d[k - |a|];
      }
    }
  }

  lemma DistinctKeysAppend<V>(a: seq<Record<V, Metadata>>, d: seq<Record<V, Metadata>>, init: seq<string>, f: string)
    requires DistinctKeys(a) && WellKeyed(a, init) && f !in init
    requires forall k :: 0 <= k < |d| ==> Key(d[k]) == (f, k)
    ensures DistinctKeys(a + d)
  {
    var rs := a + d;
    forall p, q | 0 <= p < q < |rs| ensures Key(rs[p]) != Key(rs[q]) {
      if q < |a| {
        assert rs[p] == a[p] && rs[q] == a[q];
      } else if p >= |a| {
        assert rs[p] == d[p - |a|] && rs[q] == d[q - |a|];
      } else {
        assert rs[p] == a[p] && rs[q] == d[q - |a|];
        assert Key(rs[p]).0 in init;
      }
    }
  }

  /** Record `k` of the document `f` is keyed by `f` and `k`, whatever the document. */
  ghost predicate KeyedDocuments<V>(doc: string -> seq<Record<V, Metadata>>)
  {
    forall f: string, k: int :: 0 <= k < |doc(f)| ==> Key(doc(f)[k]) == (f, k) && doc(f)[k].id == ChunkId(f, k)
  }

  lemma DocumentsKeyed<V>(extract: string -> string, embed: string -> Option<V>)
    ensures KeyedDocuments(Documents(extract, embed))
  {
    forall f: string {
      DocumentKeys(f, DocumentChunks(extract(f)), embed);
    }
  }

  /** Every accumulated record is keyed `<source>-chunk-<chunk>` by its metadata, its source one of the files. */
  lemma {:induction false} AccumulateWellKeyed<V>(files: seq<string>, doc: string -> seq<Record<V, Metadata>>)
    requires KeyedDocuments(doc)
    ensures WellKeyed(Accumulate(files, doc), files)
    decreases |files|
  {
    if |files| > 0 {
      var init := files[..|files| - 1];
      var f := files[|files| - 1];
      AccumulateWellKeyed(init, doc);
      WellKeyedAppend(Accumulate(init, doc), doc(f), init, f);
      assert files == init + [f];
    }
  }

  /** Every record's id parses back to the source file and chunk index its metadata names. */
  lemma RecordIdsMatchMetadata<V>(files: seq<string>, extract: string -> string, embed: string -> Option<V>)
    ensures var rs := AllRecords(files, extract, embed);
      forall k :: 0 <= k < |rs| ==> ParseChunkId(rs[k].id) == Some(Key(rs[k]))
  {
    var rs := AllRecords(files, extract, embed);
    DocumentsKeyed(extract, embed);
    AccumulateWellKeyed(files, Documents(extract, embed));
    forall k | 0 <= k < |rs| ensures ParseChunkId(rs[k].id) == Some(Key(rs[k])) {
      ParseChunkIdRoundTrip(rs[k].metadata.source, rs[k].metadata.chunk);
    }
  }

  /** The names `os.listdir` returns are pairwise distinct. */
  predicate DistinctNames(files: seq<string>)
  {
    forall p, q :: 0 <= p < q < |files| ==> files[p] != files[q]
  }

  /** With distinct file names no two accumulated records name the same file and chunk index. */
  lemma {:induction false} AccumulateDistinctKeys<V>(files: seq<string>, doc: string -> seq<Record<V, Metadata>>)
    requires KeyedDocuments(doc) && DistinctNames(files)
    ensures DistinctKeys(Accumulate(files, doc))
    decreases |files|
  {
    if |files| > 0 {
      var init := files[..|files| - 1];
      var f := files[|files| - 1];
      assert DistinctNames(init);
      assert f !in init;
      AccumulateDistinctKeys(init, doc);
      AccumulateWellKeyed(init, doc);
      DistinctKeysAppend(Accumulate(init, doc), doc(f), init, f);
    }
  }

  /** Records keyed by distinct file/chunk pairs have distinct ids. */
  lemma IdsFromDistinctKeys<V>(rs: seq<Record<V, Metadata>>, files: seq<string>)
    requires WellKeyed(rs, files) && DistinctKeys(rs)
    ensures DistinctIds(rs)
  {
    forall p, q | 0 <= p < q < |rs| ensures rs[p].id != rs[q].id {
      if rs[p].id == rs[q].id {
        ChunkIdInjective(rs[p].metadata.source, rs[p].metadata.chunk, rs[q].metadata.source, rs[q].metadata.chunk);
      }
    }
  }

  /**
   * With distinct file names every record id is unique, so no upsert of the
   * script overwrites the vector of another chunk.
   */
  lemma UniqueIds<V>(files: seq<string>, extract: string -> string, embed: string -> Option<V>)
    requires DistinctNames(files)
    ensures DistinctIds(AllRecords(files, extract, embed))
    ensures DistinctEntryIds(Present(AllRecords(files, extract, embed)))
  {
    var rs := AllRecords(files, extract, embed);
    DocumentsKeyed(extract, embed);
    AccumulateWellKeyed(files, Documents(extract, embed));
    AccumulateDistinctKeys(files, Documents(extract, embed));
    IdsFromDistinctKeys(rs, files);
    PresentDistinct(rs);
  }

  /** The records of `stem + ext` are filed under the patient `stem`. */
  lemma PatientOfDocument<V>(stem: string, ext: string, chunks: seq<string>, embed: string -> Option<V>)
    requires IsStem(stem) && IsExtension(ext)
    ensures forall r :: r in DocumentRecords(stem + ext, chunks, embed) ==> r.metadata.patientName == stem
  {
    SplitExtOfStem(stem, ext);
  }
}
