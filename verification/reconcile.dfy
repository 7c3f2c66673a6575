/**
 * The id filter of `add_to_chroma` in populate_database.py: the ids already in
 * the vector store are read, only chunks whose id is absent are handed to the
 * store, and the store is modelled by the set of ids it holds.
 */
module Reconcile {
  import opened Wrappers
  import opened Seqs
  import opened ChunkIds

  /** Every chunk of the batch carries an id entry. */
  predicate Identified(chunks: seq<Chunk>) {
    forall c :: c in chunks ==> c.id.Some?
  }

  /** The id entries of an identified batch, in order. */
  function Ids(chunks: seq<Chunk>): (ids: seq<string>)
    requires Identified(chunks)
    ensures |ids| == |chunks|
    ensures forall i {:trigger ids[i]} :: 0 <= i < |chunks| ==> ids[i] == chunks[i].id.value
  {
    seq(|chunks|, i requires 0 <= i < |chunks| => chunks[i].id.value)
  }

  /**
   * The chunks whose id is not among `existing`, in input order. Only the ids
   * stored before the call are consulted: two chunks of the batch with the same
   * new id are both kept.
   */
  function KeepNew(chunks: seq<Chunk>, existing: set<string>): (r: seq<Chunk>)
    requires Identified(chunks)
    ensures Identified(r)
    ensures forall c :: c in r <==> c in chunks && c.id.value !in existing
  {
    if chunks == [] then []
    else
      assert chunks == [chunks[0]] + chunks[1..];
      if chunks[0].id.value in existing then KeepNew(chunks[1..], existing)
      else [chunks[0]] + KeepNew(chunks[1..], existing)
  }

  /**
   * The kept chunks are taken in input order, and each kept chunk appears as
   * often as in the input: none is merged with an equal one.
   */
  lemma {:induction false} KeepNewIsOrderedSelection(chunks: seq<Chunk>, existing: set<string>)
    requires Identified(chunks)
    ensures IsSubsequence(KeepNew(chunks, existing), chunks)
    ensures forall c :: multiset(KeepNew(chunks, existing))[c] ==
                          if c.id != None && c.id.value !in existing then multiset(chunks)[c] else 0
  {
    if chunks != [] {
      assert chunks == [chunks[0]] + chunks[1..];
      KeepNewIsOrderedSelection(chunks[1..], existing);
    }
  }

  /** Filtering a concatenation filters each part. */
  lemma {:induction false} KeepNewAppend(a: seq<Chunk>, b: seq<Chunk>, existing: set<string>)
    requires Identified(a) && Identified(b)
    ensures Identified(a + b)
    ensures KeepNew(a + b, existing) == KeepNew(a, existing) + KeepNew(b, existing)
  {
    if a == [] {
      assert a + b == b;
    } else {
      assert (a + b)[0] == a[0];
      assert (a + b)[1..] == a[1..] + b;
      KeepNewAppend(a[1..], b, existing);
    }
  }


  /**
   * The loop of `add_to_chroma`: walk the identified chunks in order, keep
   * those whose id is not yet stored, then list the kept chunks' ids.
   */
  method SelectNew(chunksWithIds: seq<Chunk>, existingIds: set<string>) returns (newChunks: seq<Chunk>, newChunkIds: seq<string>)
    requires Identified(chunksWithIds)
    ensures newChunks == KeepNew(chunksWithIds, existingIds)
    ensures |newChunkIds| == |newChunks|
    ensures forall i :: 0 <= i < |newChunks| ==> newChunks[i].id == Some(newChunkIds[i])
  {
    newChunks := [];
    for i := 0 to |chunksWithIds|
      invariant Identified(chunksWithIds[..i])
      invariant newChunks == KeepNew(chunksWithIds[..i], existingIds)
    {
      var chunk := chunksWithIds[i];
      TakeOneMore(chunksWithIds, i);
      KeepNewAppend(chunksWithIds[..i], [chunk], existingIds);
      if chunk.id.value !in existingIds {
        newChunks := newChunks + [chunk];
      }
    }
    assert chunksWithIds[..|chunksWithIds|] == chunksWithIds;
    newChunkIds := [];
    for i := 0 to |newChunks|
      invariant |newChunkIds| == i
      invariant forall k :: 0 <= k < i ==> newChunks[k].id == Some(newChunkIds[k])
    {
      newChunkIds := newChunkIds + [newChunks[i].id.value];
    }
  }

  /** What one ingestion pass hands to the store, and the store's ids afterwards. */
  datatype Ingestion = Ingestion(added: seq<Chunk>, addedIds: seq<string>, store: set<string>)

  /** The ids carried by an identified batch. */
  function IdSet(batch: seq<Chunk>): set<string>
    requires Identified(batch)
  {
    set c | c in batch :: c.id.value
  }

  /** The ids of the kept chunks are the batch's ids that were not yet stored. */
  lemma IdsOfKeptChunks(batch: seq<Chunk>, existing: set<string>)
    requires Identified(batch)
    ensures (set x | x in Ids(KeepNew(batch, existing))) == IdSet(batch) - existing
  {
    var added := KeepNew(batch, existing);
    var addedIds := Ids(added);
    forall x | x in IdSet(batch) - existing
      ensures x in addedIds
    {
      var c :| c in batch && c.id.value == x;
      assert c in added;
      var j :| 0 <= j < |added| && added[j] == c;
      assert addedIds[j] == x;
    }
    forall x | x in addedIds
      ensures x in IdSet(batch) - existing
    {
      var j :| 0 <= j < |addedIds| && addedIds[j] == x;
      assert added[j] in batch;
    }
  }

  /** A batch none of whose ids is stored passes the filter whole. */
  lemma {:induction false} KeepNewAllNew(batch: seq<Chunk>, existing: set<string>)
    requires Identified(batch)
    requires forall c :: c in batch ==> c.id.value !in existing
    ensures KeepNew(batch, existing) == batch
  {
    if batch != [] {
      assert batch == [batch[0]] + batch[1..];
      KeepNewAllNew(batch[1..], existing);
    }
  }

  /** A batch none of whose ids is stored is handed over with all its ids, in order. */
  lemma AllNewIdsHandedOver(batch: seq<Chunk>, existing: set<string>)
    requires forall i :: 0 <= i < |batch| ==> batch[i].id.Some? && batch[i].id.value !in existing
    ensures Identified(batch)
    ensures Ingest(batch, existing).addedIds == Ids(batch)
  {
    KeepNewAllNew(batch, existing);
  }

  /** Nothing is kept exactly when every id of the batch is already stored. */
  lemma KeepNewEmptyIff(batch: seq<Chunk>, existing: set<string>)
    requires Identified(batch)
    ensures KeepNew(batch, existing) == [] <==> IdSet(batch) <= existing
  {
    var r := KeepNew(batch, existing);
    if r != [] {
      assert r[0] in r;
      assert r[0].id.value in IdSet(batch);
    } else {
      forall x | x in IdSet(batch)
        ensures x in existing
      {
        var c :| c in batch && c.id.value == x;
      }
    }
  }

  /**
   * One pass of the filter and the insertion over an identified batch against
   * a store holding `existing`: the chunks with new ids are added, in order,
   * and afterwards the store holds its old ids together with every id of the
   * batch.
   */
  function Ingest(batch: seq<Chunk>, existing: set<string>): (r: Ingestion)
    requires Identified(batch)
    ensures forall c :: c in r.added <==> c in batch && c.id.value !in existing
    ensures IsSubsequence(r.added, batch)
    ensures |r.addedIds| == |r.added|
    ensures forall i {:trigger r.addedIds[i]} :: 0 <= i < |r.added| ==> r.added[i].id == Some(r.addedIds[i])
    ensures r.store == existing + IdSet(batch)
    ensures r.added == [] <==> IdSet(batch) <= existing
  {
    var added := KeepNew(batch, existing);
    var addedIds := Ids(added);
    KeepNewIsOrderedSelection(batch, existing);
    KeepNewEmptyIff(batch, existing);
    IdsOfKeptChunks(batch, existing);
    var store := if |added| > 0 then existing + set x | x in addedIds else existing;
    assert store == existing + IdSet(batch) by {
      if added == [] {
        assert IdSet(batch) <= existing;
      } else {
        assert (set x | x in addedIds) == IdSet(batch) - existing;
      }
    }
    Ingestion(added, addedIds, store)
  }

  /** Every chunk with a new id is handed over as often as it occurs in the batch. */
  lemma IngestKeepsMultiplicity(batch: seq<Chunk>, existing: set<string>)
    requires Identified(batch)
    ensures forall c: Chunk :: c.id != None && c.id.value !in existing ==>
              multiset(Ingest(batch, existing).added)[c] == multiset(batch)[c]
  {
    KeepNewIsOrderedSelection(batch, existing);
  }

  /**
   * `add_to_chroma` after splitting: identify the chunks, select the ones the
   * store lacks and, when there are any, add them under their ids.
   */
  method AddToChroma(chunks: seq<Chunk>, existingIds: set<string>) returns (r: Ingestion)
    ensures Identified(WithIds(chunks))
    ensures r == Ingest(WithIds(chunks), existingIds)
  {
    var chunksWithIds := CalculateChunkIds(chunks);
    assert Identified(chunksWithIds);
    var newChunks, newChunkIds := SelectNew(chunksWithIds, existingIds);
    assert newChunkIds == Ids(newChunks);
    var store := existingIds;
    if |newChunks| > 0 {
      store := store + set x | x in newChunkIds;
    }
    r := Ingestion(newChunks, newChunkIds, store);
  }

  /** A second pass over the same batch adds nothing and leaves the store as it was. */
  lemma SecondPassAddsNothing(batch: seq<Chunk>, existing: set<string>)
    requires Identified(batch)
    ensures var first := Ingest(batch, existing);
            var second := Ingest(batch, first.store);
            second.added == [] && second.addedIds == [] && second.store == first.store
  {
  }

  /**
   * After ingesting a batch, ingesting it again with more chunks appended adds
   * only chunks of the appended part: exactly those whose id is still new.
   */
  lemma IngestExtendedBatch(batch: seq<Chunk>, extra: seq<Chunk>, existing: set<string>)
    requires Identified(batch) && Identified(extra)
    ensures Identified(batch + extra)
    ensures var store := Ingest(batch, existing).store;
            Ingest(batch + extra, store).added == KeepNew(extra, store)
  {
    var store := Ingest(batch, existing).store;
    KeepNewAppend(batch, extra, store);
    KeepNewEmptyIff(batch, store);
  }

  /**
   * The same for raw chunks: identifying the longer batch gives the old chunks
   * their old ids, so only appended chunks can be added.
   */
  lemma AppendedChunksOnlyAdded(chunks: seq<Chunk>, more: seq<Chunk>, existing: set<string>)
    ensures Identified(WithIds(chunks)) && Identified(WithIds(chunks + more))
    ensures var first := Ingest(WithIds(chunks), existing);
            var all := WithIds(chunks + more);
            Identified(all[|chunks|..])
            && Ingest(all, first.store).added == KeepNew(all[|chunks|..], first.store)
  {
    var all := WithIds(chunks + more);
    IdsStableUnderAppend(chunks, more);
    assert all == all[..|chunks|] + all[|chunks|..];
    IngestExtendedBatch(WithIds(chunks), all[|chunks|..], existing);
  }

  /**
   * The filter does not look inside the batch: when a page id comes back after
   * another one (A, B, A), both A chunks are added under the same id.
   */
  lemma RepeatedIdInOneBatchAddedTwice(a: Chunk, b: Chunk, existing: set<string>)
    requires PageId(a) != PageId(b)
    requires IdAt([a, b, a], 0) !in existing && IdAt([a, b, a], 1) !in existing
    ensures Identified(WithIds([a, b, a]))
    ensures var r := Ingest(WithIds([a, b, a]), existing);
            |r.addedIds| == 3 && r.addedIds[0] == r.addedIds[2]
  {
    var w := WithIds([a, b, a]);
    ReturningPageIdsInBatch(a, b);
    AllNewIdsHandedOver(w, existing);
  }
}
