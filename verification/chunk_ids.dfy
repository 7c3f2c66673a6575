/**
 * Identity assignment for the chunks produced by the text splitter
 * (`calculate_chunk_ids` in populate_database.py).
 *
 * Every chunk receives the id "{source}:{page}:{index}", where "{source}:{page}"
 * is the chunk's page id and `index` counts the chunks before it, in the same
 * maximal run of consecutive chunks with that page id. Missing metadata is
 * rendered the way a Python f-string renders `None`.
 */
module ChunkIds {
  import opened Wrappers
  import opened Decimal
  import opened Runs

  /**
   * A chunk of a loaded document: its text, the two metadata entries the id is
   * built from, and the `id` metadata entry that identity assignment writes.
   */
  datatype Chunk = Chunk(content: string, source: Option<string>, page: Option<int>, id: Option<string>)

  /** f"{source}" for a metadata value that may be missing. */
  function ShowSource(source: Option<string>): string {
    match source
    case None => "None"
    case Some(s) => s
  }

  /** f"{page}" for a metadata value that may be missing; it never contains ':'. */
  function ShowPage(page: Option<int>): (r: string)
    ensures |r| >= 1
    ensures ':' !in r
  {
    match page
    case None => "None"
    case Some(p) =>
      NumeralHasNoColon(if p < 0 then -p else p);
      IntToDecimal(p)
  }

  /**
   * The "{source}:{page}" string that groups chunks: the source, then the
   * separator, then the page, which holds no ':' itself, so the last ':' of a
   * page id is the one that separates the two.
   */
  function PageId(c: Chunk): (r: string)
    ensures var n := |ShowSource(c.source)|;
            && n < |r|
            && r[..n] == ShowSource(c.source)
            && r[n] == ':'
            && r[n + 1..] == ShowPage(c.page)
            && ':' !in r[n + 1..]
  {
    ShowSource(c.source) + ":" + ShowPage(c.page)
  }

  /**
   * The "{page id}:{index}" string stored as a chunk's id: the page id, the
   * separator, and a numeral without ':' that reads back as the index.
   */
  function ChunkId(pageId: string, index: nat): (r: string)
    ensures |pageId| < |r|
    ensures r[..|pageId|] == pageId && r[|pageId|] == ':'
    ensures ':' !in r[|pageId| + 1..]
    ensures IsDigits(r[|pageId| + 1..]) && ParseDecimal(r[|pageId| + 1..]) == index
  {
    NumeralHasNoColon(index);
    ParseNatToDecimal(index);
    var r := pageId + ":" + NatToDecimal(index);
    assert r[|pageId| + 1..] == NatToDecimal(index);
    r
  }

  /** The page id of every chunk of a batch, in order. */
  function PageIds(chunks: seq<Chunk>): (keys: seq<string>)
    ensures |keys| == |chunks|
    ensures forall i {:trigger keys[i]} :: 0 <= i < |chunks| ==> keys[i] == PageId(chunks[i])
  {
    Keys(chunks, PageId)
  }

  /** The id given to chunk `i` of a batch. */
  function IdAt(chunks: seq<Chunk>, i: nat): string
    requires i < |chunks|
  {
    ChunkId(PageId(chunks[i]), RunIndex(PageIds(chunks), i))
  }

  /** The batch with every chunk's id entry set; nothing else is touched. */
  function WithIds(chunks: seq<Chunk>): (r: seq<Chunk>)
    ensures |r| == |chunks|
    ensures forall i {:trigger r[i]} :: 0 <= i < |r| ==> r[i] == chunks[i].(id := Some(IdAt(chunks, i)))
  {
    seq(|chunks|, i requires 0 <= i < |chunks| => chunks[i].(id := Some(IdAt(chunks, i))))
  }

  /** Writing the id built from a page id and an index into a chunk's metadata. */
  function Stamp(c: Chunk, pageId: string, index: nat): Chunk {
    c.(id := Some(ChunkId(pageId, index)))
  }

  /**
   * `calculate_chunk_ids`: the single pass over the batch that tracks the
   * previous page id and the index within its run, and writes every chunk's id.
   */
  method CalculateChunkIds(chunks: seq<Chunk>) returns (out: seq<Chunk>)
    ensures out == WithIds(chunks)
  {
    out := LabelRuns(chunks, PageId, Stamp);
    assert forall i {:trigger out[i]} :: 0 <= i < |out| ==> out[i] == WithIds(chunks)[i];
  }

  /** The first chunk always gets index 0: the previous page id starts out missing. */
  lemma FirstChunkIndexZero(chunks: seq<Chunk>)
    requires |chunks| > 0
    ensures IdAt(chunks, 0) == PageId(chunks[0]) + ":0"
  {
    assert NatToDecimal(0) == "0";
  }

  /** The digits of an index never contain the separator. */
  lemma NumeralHasNoColon(n: nat)
    ensures ':' !in NatToDecimal(n)
  {
    var d := NatToDecimal(n);
    assert forall k :: 0 <= k < |d| ==> IsDigit(d[k]);
  }

  /**
   * An id determines its page id and its index: the index is what follows the
   * last ':', whatever the source path contains.
   */
  lemma ChunkIdInjective(p: string, m: nat, q: string, n: nat)
    ensures ChunkId(p, m) == ChunkId(q, n) <==> p == q && m == n
  {
    if ChunkId(p, m) == ChunkId(q, n) {
      NatToDecimalInjective(m, n);
    }
  }

  /**
   * Returning to a page id after a different one restarts its index: the
   * batch A, B, A gives both A chunks the same id.
   */
  lemma ReturningPageRepeatsId(a: Chunk, b: Chunk)
    requires PageId(a) != PageId(b)
    ensures IdAt([a, b, a], 0) == IdAt([a, b, a], 2)
  {
    var keys := PageIds([a, b, a]);
    assert keys[2] != keys[1];
  }

  /** The identified batch A, B, A: three chunks, and the two A chunks carry the same id. */
  lemma ReturningPageIdsInBatch(a: Chunk, b: Chunk)
    requires PageId(a) != PageId(b)
    ensures var w := WithIds([a, b, a]);
            && |w| == 3
            && w[0].id == Some(IdAt([a, b, a], 0))
            && w[1].id == Some(IdAt([a, b, a], 1))
            && w[2].id == w[0].id
  {
    ReturningPageRepeatsId(a, b);
  }

  /** Each page id occupies a single contiguous stretch of the batch. */
  ghost predicate PagesContiguous(chunks: seq<Chunk>) {
    Contiguous(PageIds(chunks))
  }

  /** No two chunks of the batch receive the same id. */
  ghost predicate DistinctIds(chunks: seq<Chunk>) {
    forall i, j :: 0 <= i < j < |chunks| ==> IdAt(chunks, i) != IdAt(chunks, j)
  }

  /** The ids of a batch are pairwise distinct exactly when its page ids are contiguous. */
  lemma DistinctIdsIffContiguous(chunks: seq<Chunk>)
    ensures DistinctIds(chunks) <==> PagesContiguous(chunks)
  {
    var keys := PageIds(chunks);
    DistinctPairsIffContiguous(keys);
    forall i, j | 0 <= i < j < |chunks|
      ensures IdAt(chunks, i) == IdAt(chunks, j) <==> keys[i] == keys[j] && RunIndex(keys, i) == RunIndex(keys, j)
    {
      ChunkIdInjective(keys[i], RunIndex(keys, i), keys[j], RunIndex(keys, j));
    }
  }

  /**
   * Ids are a function of the chunks up to and including the chunk itself:
   * re-running over a batch with chunks appended reproduces the old ids, and
   * so the identified batch starts with the old identified batch.
   */
  lemma IdsStableUnderAppend(chunks: seq<Chunk>, more: seq<Chunk>)
    ensures forall i :: 0 <= i < |chunks| ==> IdAt(chunks + more, i) == IdAt(chunks, i)
    ensures WithIds(chunks + more)[..|chunks|] == WithIds(chunks)
  {
    var all := PageIds(chunks + more);
    assert all[..|chunks|] == PageIds(chunks);
    forall i | 0 <= i < |chunks|
      ensures IdAt(chunks + more, i) == IdAt(chunks, i)
    {
      RunIndexPrefix(all, |chunks|, i);
    }
    var w, v := WithIds(chunks + more), WithIds(chunks);
    forall i | 0 <= i < |chunks|
      ensures w[i] == v[i]
    {
      assert (chunks + more)[i] == chunks[i];
    }
  }

  /** Three chunks of page 6 of "data/monopoly.pdf" end at "data/monopoly.pdf:6:2". */
  lemma MonopolyExample(text: string)
    ensures var c := Chunk(text, Some("data/monopoly.pdf"), Some(6), None);
            IdAt([c, c, c], 2) == "data/monopoly.pdf:6:2"
  {
    var c := Chunk(text, Some("data/monopoly.pdf"), Some(6), None);
    var keys := PageIds([c, c, c]);
    assert keys[0] == keys[1] == keys[2] == "data/monopoly.pdf:6";
    RunIndicesCountFromZero(keys, 0, 3);
  }

  /**
   * a.pdf page 0 twice, a.pdf page 1, b.pdf page 0 get a.pdf:0:0, a.pdf:0:1,
   * a.pdf:1:0, b.pdf:0:0: a new page restarts the index, and so does a new source.
   */
  lemma MixedPagesExample(text: string)
    ensures var a0, a1, b0 := Chunk(text, Some("a.pdf"), Some(0), None),
                              Chunk(text, Some("a.pdf"), Some(1), None),
                              Chunk(text, Some("b.pdf"), Some(0), None);
            var batch := [a0, a0, a1, b0];
            [IdAt(batch, 0), IdAt(batch, 1), IdAt(batch, 2), IdAt(batch, 3)]
              == ["a.pdf:0:0", "a.pdf:0:1", "a.pdf:1:0", "b.pdf:0:0"]
  {
    var a0, a1, b0 := Chunk(text, Some("a.pdf"), Some(0), None),
                      Chunk(text, Some("a.pdf"), Some(1), None),
                      Chunk(text, Some("b.pdf"), Some(0), None);
    var batch := [a0, a0, a1, b0];
    var ks := PageIds(batch);
    assert ks[0] == ks[1] == "a.pdf:0";
    assert ks[2] == "a.pdf:1";
    assert ks[3] == "b.pdf:0";
    assert RunIndex(ks, 1) == 1 && RunIndex(ks, 2) == 0 && RunIndex(ks, 3) == 0;
    assert IdAt(batch, 0) == "a.pdf:0:0";
    assert IdAt(batch, 1) == "a.pdf:0:1";
    assert IdAt(batch, 2) == "a.pdf:1:0";
    assert IdAt(batch, 3) == "b.pdf:0:0";
  }

  /** A chunk with neither source nor page gets the id "None:None:{index}". */
  lemma MissingMetadataRendersNone(text: string)
    ensures var c := Chunk(text, None, None, None);
            IdAt([c, c], 1) == "None:None:1"
  {
    var c := Chunk(text, None, None, None);
    var keys := PageIds([c, c]);
    assert keys[1] == keys[0];
  }
}
