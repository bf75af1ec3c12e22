/**
 * `upsert_vectors_to_pinecone`: the records whose embedding succeeded become
 * index entries, which are sent to the vector index in batches of
 * `batch_size`, the last batch holding whatever is left over.
 */
module IndexWriter {
  import opened Wrappers
  import opened Arith

  const DefaultBatchSize: int := 100

  /** A `(vector_id, vector, metadata)` triple; the vector is missing when embedding failed. */
  datatype Record<V, M> = Record(id: string, vector: Option<V>, metadata: M)

  /** One element of an upsert request: `{"id": ..., "values": ..., "metadata": ...}`. */
  datatype Entry<V, M> = Entry(id: string, values: V, metadata: M)

  /** What a record contributes to the upsert requests: nothing when it has no vector. */
  function EntryOf<V, M>(r: Record<V, M>): seq<Entry<V, M>>
  {
    match r.vector
    case None => []
    case Some(v) => [Entry(r.id, v, r.metadata)]
  }

  /** The entries of the records that have a vector, in record order. */
  function Present<V, M>(docs: seq<Record<V, M>>): seq<Entry<V, M>>
  {
    if |docs| == 0 then [] else Present(docs[..|docs| - 1]) + EntryOf(docs[|docs| - 1])
  }

  /** The concatenation of a sequence of batches. */
  function Flatten<T>(batches: seq<seq<T>>): seq<T>
  {
    if |batches| == 0 then [] else Flatten(batches[..|batches| - 1]) + batches[|batches| - 1]
  }

  /**
   * The batch size the flush test `len(batch) >= batch_size` behaves as: a
   * size below 1 flushes after every entry.
   */
  function EffectiveBatchSize(batchSize: int): (b: nat)
    ensures b >= 1
    ensures batchSize >= 1 ==> b == batchSize
    ensures batchSize < 1 ==> b == 1
  {
    if batchSize < 1 then 1 else batchSize
  }

  /** On a non-empty batch, the source's flush test agrees with the test against the effective size. */
  lemma FlushTest(batchSize: int, m: nat)
    requires m >= 1
    ensures m >= batchSize <==> m >= EffectiveBatchSize(batchSize)
  {
  }

  /** Reference batching: consecutive pieces of `b` items, the last one possibly shorter. */
  function Batches<T>(xs: seq<T>, b: nat): seq<seq<T>>
    requires b >= 1
    decreases |xs|
  {
    if |xs| == 0 then []
    else if |xs| <= b then [xs]
    else [xs[..b]] + Batches(xs[b..], b)
  }

  /** Every batch already sent holds exactly `b` entries. */
  ghost predicate AllFull<T>(calls: seq<seq<T>>, b: nat)
  {
    forall k :: 0 <= k < |calls| ==> |calls[k]| == b
  }

  /**
   * One iteration of the loop over `docs`: a record without a vector is
   * skipped; otherwise its entry joins the pending batch, which is sent once
   * it holds `batch_size` entries.
   */
  method AddRecord<V, M>(calls: seq<seq<Entry<V, M>>>, batch: seq<Entry<V, M>>, r: Record<V, M>, batchSize: int)
    returns (calls': seq<seq<Entry<V, M>>>, batch': seq<Entry<V, M>>)
    requires AllFull(calls, EffectiveBatchSize(batchSize)) && |batch| < EffectiveBatchSize(batchSize)
    ensures Flatten(calls') + batch' == Flatten(calls) + batch + EntryOf(r)
    ensures AllFull(calls', EffectiveBatchSize(batchSize)) && |batch'| < EffectiveBatchSize(batchSize)
  {
    calls' := calls;
    batch' := batch;
    match r.vector {
      case None =>
      case Some(v) =>
        batch' := batch + [Entry(r.id, v, r.metadata)];
        if |batch'| >= batchSize {
          FlattenSnoc(calls, batch');
          calls' := calls + [batch'];
          batch' := [];
        }
    }
  }

  /**
   * The upsert requests `upsert_vectors_to_pinecone(docs, batch_size)` sends,
   * in order. Records without a vector are skipped; the pending batch is
   * sent as soon as it holds `batch_size` entries, and what remains is sent
   * at the end.
   */
  method UpsertVectors<V, M>(docs: seq<Record<V, M>>, batchSize: int) returns (calls: seq<seq<Entry<V, M>>>)
    ensures calls == Batches(Present(docs), EffectiveBatchSize(batchSize))
    ensures Flatten(calls) == Present(docs)
    ensures forall k :: 0 <= k < |calls| ==> 1 <= |calls[k]| <= EffectiveBatchSize(batchSize)
    ensures |calls| == CeilDiv(|Present(docs)|, EffectiveBatchSize(batchSize))
  {
    calls := [];
    var batch: seq<Entry<V, M>> := [];
    var i := 0;
    while i < |docs|
      invariant 0 <= i <= |docs|
      invariant Flatten(calls) + batch == Present(docs[..i])
      invariant AllFull(calls, EffectiveBatchSize(batchSize)) && |batch| < EffectiveBatchSize(batchSize)
    {
      assert docs[..i + 1][..i] == docs[..i];
      calls, batch := AddRecord(calls, batch, docs[i], batchSize);
      i := i + 1;
    }
    assert docs[..i] == docs;
    if |batch| > 0 {
      calls := SendRest(calls, batch, EffectiveBatchSize(batchSize));
    } else {
      assert Flatten(calls) + batch == Flatten(calls);
      BatchesOfFull(calls, batch, EffectiveBatchSize(batchSize));
    }
    BatchesFlatten(Present(docs), EffectiveBatchSize(batchSize));
    BatchSizes(Present(docs), EffectiveBatchSize(batchSize));
    BatchCount(Present(docs), EffectiveBatchSize(batchSize));
  }

  /** The final `if upsert_batch:` request, sending the entries left over. */
  method SendRest<T>(calls: seq<seq<T>>, batch: seq<T>, ghost b: nat) returns (calls': seq<seq<T>>)
    requires b >= 1 && AllFull(calls, b) && 0 < |batch| < b
    ensures calls' == Batches(Flatten(calls) + batch, b)
  {
    calls' := calls + [batch];
    BatchesOfFull(calls, batch, b);
  }

  // ---------------------------------------------------------------------------
  // Batches
  // ---------------------------------------------------------------------------

  lemma FlattenSnoc<T>(batches: seq<seq<T>>, last: seq<T>)
    ensures Flatten(batches + [last]) == Flatten(batches) + last
  {
    assert (batches + [last])[..|batches|] == batches;
  }

  lemma {:induction false} FlattenCons<T>(first: seq<T>, rest: seq<seq<T>>)
    ensures Flatten([first] + rest) == first + Flatten(rest)
    decreases |rest|
  {
    if |rest| == 0 {
      assert [first] + rest == [first];
      assert [first][..0] == [];
    } else {
      var init := rest[..|rest| - 1];
      var last := rest[|rest| - 1];
      assert [first] + rest == ([first] + init) + [last];
      FlattenSnoc([first] + init, last);
      FlattenCons(first, init);
      FlattenSnoc(init, last);
      assert rest == init + [last];
    }
  }

  /** Sending the batches one after the other sends every item once, in order. */
  lemma {:induction false} BatchesFlatten<T>(xs: seq<T>, b: nat)
    requires b >= 1
    ensures Flatten(Batches(xs, b)) == xs
    decreases |xs|
  {
    if |xs| == 0 {
    } else if |xs| <= b {
      assert [xs] == [] + [xs];
      FlattenSnoc([], xs);
    } else {
      BatchesFlatten(xs[b..], b);
      FlattenCons(xs[..b], Batches(xs[b..], b));
      assert xs == xs[..b] + xs[b..];
    }
  }

  /** Every batch is non-empty and holds at most `b` items; all but the last hold exactly `b`. */
  lemma {:induction false} BatchSizes<T>(xs: seq<T>, b: nat)
    requires b >= 1
    ensures forall k :: 0 <= k < |Batches(xs, b)| ==> 1 <= |Batches(xs, b)[k]| <= b
    ensures forall k :: 0 <= k < |Batches(xs, b)| - 1 ==> |Batches(xs, b)[k]| == b
    decreases |xs|
  {
    if |xs| > b {
      BatchSizes(xs[b..], b);
      var rest := Batches(xs[b..], b);
      assert forall k :: 1 <= k < |Batches(xs, b)| ==> Batches(xs, b)[k] == rest[k - 1];
    }
  }

  /** `ceil(n / b)` requests are sent for `n` entries. */
  lemma {:induction false} BatchCount<T>(xs: seq<T>, b: nat)
    requires b >= 1
    ensures |Batches(xs, b)| == CeilDiv(|xs|, b)
    decreases |xs|
  {
    if |xs| > b {
      BatchCount(xs[b..], b);
    }
  }

  /**
   * Full batches followed by a short final one are exactly the reference
   * batches of their concatenation.
   */
  lemma {:induction false} BatchesOfFull<T>(full: seq<seq<T>>, tail: seq<T>, b: nat)
    requires b >= 1
    requires forall k :: 0 <= k < |full| ==> |full[k]| == b
    requires |tail| <= b
    ensures Batches(Flatten(full) + tail, b) == full + (if |tail| == 0 then [] else [tail])
    decreases |full|
  {
    if |full| == 0 {
      assert Flatten(full) + tail == tail;
    } else {
      var rest := full[1..];
      assert full == [full[0]] + rest;
      FlattenCons(full[0], rest);
      var xs := Flatten(full) + tail;
      assert xs == full[0] + (Flatten(rest) + tail);
      assert forall k :: 0 <= k < |rest| ==> |rest[k]| == b by {
        forall k | 0 <= k < |rest| ensures |rest[k]| == b {
          assert rest[k] == full[k + 1];
        }
      }
      BatchesOfFull(rest, tail, b);
      if |xs| <= b {
        FullFlattenEmpty(rest, b);
        assert xs == full[0];
      } else {
        assert xs[..b] == full[0];
        assert xs[b..] == Flatten(rest) + tail;
      }
    }
  }

  /** Batches of `b >= 1` items flatten to nothing only when there are none. */
  lemma {:induction false} FullFlattenEmpty<T>(full: seq<seq<T>>, b: nat)
    requires b >= 1
    requires forall k :: 0 <= k < |full| ==> |full[k]| == b
    ensures |Flatten(full)| == |full| * b
    decreases |full|
  {
    if |full| > 0 {
      FullFlattenEmpty(full[..|full| - 1], b);
    }
  }

  // ---------------------------------------------------------------------------
  // The records that are sent
  // ---------------------------------------------------------------------------

  /** The entries sent are exactly the records that have a vector, with that vector. */
  lemma {:induction false} PresentMembers<V, M>(docs: seq<Record<V, M>>, e: Entry<V, M>)
    ensures e in Present(docs) <==> exists r :: r in docs && r.vector == Some(e.values) && e == Entry(r.id, e.values, r.metadata)
    decreases |docs|
  {
    if |docs| > 0 {
      var init := docs[..|docs| - 1];
      var last := docs[|docs| - 1];
      PresentMembers(init, e);
      assert docs == init + [last];
      if e in Present(docs) && e !in Present(init) {
        assert last.vector == Some(e.values) && e == Entry(last.id, e.values, last.metadata);
      }
    }
  }

  /** When every record has a vector, the `k`-th entry sent is the `k`-th record. */
  lemma {:induction false} PresentAllEmbedded<V, M>(docs: seq<Record<V, M>>)
    requires forall i :: 0 <= i < |docs| ==> docs[i].vector.Some?
    ensures |Present(docs)| == |docs|
    ensures forall k :: 0 <= k < |docs| ==>
      Present(docs)[k] == Entry(docs[k].id, docs[k].vector.value, docs[k].metadata)
    decreases |docs|
  {
    if |docs| > 0 {
      var init := docs[..|docs| - 1];
      PresentAllEmbedded(init);
    }
  }

  /** Records without a vector are never sent: at most one entry per record, one for each exactly when all have a vector. */
  lemma {:induction false} PresentLength<V, M>(docs: seq<Record<V, M>>)
    ensures |Present(docs)| <= |docs|
    ensures |Present(docs)| == |docs| <==> forall i :: 0 <= i < |docs| ==> docs[i].vector.Some?
    decreases |docs|
  {
    if |docs| > 0 {
      var init := docs[..|docs| - 1];
      PresentLength(init);
      assert forall i :: 0 <= i < |init| ==> init[i] == docs[i];
    }
  }

  /** The ids of a sequence of records or entries are pairwise distinct. */
  ghost predicate DistinctIds<V, M>(docs: seq<Record<V, M>>)
  {
    forall p, q :: 0 <= p < q < |docs| ==> docs[p].id != docs[q].id
  }

  ghost predicate DistinctEntryIds<V, M>(es: seq<Entry<V, M>>)
  {
    forall p, q :: 0 <= p < q < |es| ==> es[p].id != es[q].id
  }

  /** Records with distinct ids give entries with distinct ids, so no upsert overwrites another. */
  lemma {:induction false} PresentDistinct<V, M>(docs: seq<Record<V, M>>)
    requires DistinctIds(docs)
    ensures DistinctEntryIds(Present(docs))
    decreases |docs|
  {
    if |docs| > 0 {
      var init := docs[..|docs| - 1];
      var last := docs[|docs| - 1];
      assert DistinctIds(init) by {
        assert forall i :: 0 <= i < |init| ==> init[i] == docs[i];
      }
      PresentDistinct(init);
      var es := Present(init);
      forall k | 0 <= k < |es| ensures es[k].id != last.id {
        PresentMembers(init, es[k]);
        var r :| r in init && r.vector == Some(es[k].values) && es[k] == Entry(r.id, es[k].values, r.metadata);
        var p :| 0 <= p < |init| && init[p] == r;
        assert docs[p] == r;
      }
    }
  }
}
