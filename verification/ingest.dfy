/** The pure steps of the ingestion script: cleaning the review column,
    `prepare_documents`, and the ids and metadatas handed to the store. */
module Ingest {
  import opened Wrappers
  import opened Text
  import opened Decimal
  import opened Seqs
  import opened Store
  import opened Chunking
  import Config

  // ---------------------------------------------------------------------------
  // Cleaning (`load_data`).

  /** The review column: `None` is a missing (NaN) cell. */
  type Column = seq<Option<string>>

  /** Drop missing cells, strip the rest, and drop those left empty. */
  function CleanTexts(cells: Column): (texts: seq<string>)
    ensures |texts| <= |cells|
    ensures forall k :: 0 <= k < |texts| ==> texts[k] != [] && IsStripped(texts[k])
  {
    if cells == [] then []
    else
      var rest := CleanTexts(cells[1..]);
      match cells[0]
      case None => rest
      case Some(c) => if Strip(c) == [] then rest else [Strip(c)] + rest
  }

  /** Every cell, stripped, with a missing cell read as empty. */
  function StrippedCells(cells: Column): (r: seq<string>)
    ensures |r| == |cells|
  {
    seq(|cells|, k requires 0 <= k < |cells| => Strip(cells[k].GetOr([])))
  }

  /** The cleaned texts keep the column's order: they are a subsequence of the
      stripped cells. */
  lemma {:induction false} CleanTextsInOrder(cells: Column)
    ensures IsSubsequence(CleanTexts(cells), StrippedCells(cells))
  {
    if cells != [] {
      CleanTextsInOrder(cells[1..]);
      var rest := CleanTexts(cells[1..]);
      var c0 := Strip(cells[0].GetOr([]));
      assert StrippedCells(cells) == [c0] + StrippedCells(cells[1..]);
      if cells[0].Some? && c0 != [] {
        assert CleanTexts(cells) == [c0] + rest;
        assert ([c0] + rest)[1..] == rest;
      } else {
        assert CleanTexts(cells) == rest;
        SubsequenceCons(rest, c0, StrippedCells(cells[1..]));
      }
    }
  }

  /** No review is lost: every present cell with non-whitespace content appears,
      stripped, among the cleaned texts. */
  lemma {:induction false} CleanTextsKeepsReviews(cells: Column, k: nat)
    requires k < |cells| && cells[k].Some? && !AllWhitespace(cells[k].value)
    ensures Strip(cells[k].value) in CleanTexts(cells)
  {
    if k > 0 {
      CleanTextsKeepsReviews(cells[1..], k - 1);
    }
  }

  /** Reference definition: the positions, from `i` on, of present cells with
      non-whitespace content, in increasing order. */
  function ReviewPositions(cells: Column, i: nat): (ks: seq<nat>)
    requires i <= |cells|
    ensures forall k :: 0 <= k < |ks| ==> i <= ks[k] < |cells|
    ensures forall k, l :: 0 <= k < l < |ks| ==> ks[k] < ks[l]
    ensures forall j :: i <= j < |cells| ==> (j in ks <==> cells[j].Some? && !AllWhitespace(cells[j].value))
    decreases |cells| - i
  {
    if i == |cells| then []
    else
      var rest := ReviewPositions(cells, i + 1);
      if cells[i].Some? && !AllWhitespace(cells[i].value) then [i] + rest else rest
  }

  /** Cleaning keeps exactly the present cells with non-whitespace content,
      every one of them (repeated reviews included), stripped, in column order. */
  lemma CleanTextsIsReviews(cells: Column)
    ensures CleanTexts(cells) == Gather(StrippedCells(cells), ReviewPositions(cells, 0))
    ensures |CleanTexts(cells)| == |ReviewPositions(cells, 0)|
  {
    CleanTextsFrom(cells, 0);
    assert cells[0..] == cells;
  }

  lemma {:induction false} CleanTextsFrom(cells: Column, i: nat)
    requires i <= |cells|
    ensures CleanTexts(cells[i..]) == Gather(StrippedCells(cells), ReviewPositions(cells, i))
    decreases |cells| - i
  {
    if i < |cells| {
      CleanTextsFrom(cells, i + 1);
      var u := cells[i..];
      assert u[1..] == cells[i + 1..];
      assert u[0] == cells[i];
      var rest := ReviewPositions(cells, i + 1);
      if cells[i].Some? && !AllWhitespace(cells[i].value) {
        assert ReviewPositions(cells, i) == [i] + rest;
        GatherCons(StrippedCells(cells), i, rest);
      } else {
        assert ReviewPositions(cells, i) == rest;
      }
    } else {
      assert cells[i..] == [];
    }
  }

  /** The texts of a cleaned column, put back as a column. */
  function AsColumn(texts: seq<string>): (cells: Column)
    ensures |cells| == |texts|
  {
    seq(|texts|, k requires 0 <= k < |texts| => Some(texts[k]))
  }

  /** Cleaning an already cleaned column changes nothing. */
  lemma {:induction false} CleanTextsIdempotent(cells: Column)
    ensures CleanTexts(AsColumn(CleanTexts(cells))) == CleanTexts(cells)
  {
    CleanedIsFixpoint(CleanTexts(cells));
  }

  lemma {:induction false} CleanedIsFixpoint(texts: seq<string>)
    requires forall k :: 0 <= k < |texts| ==> texts[k] != [] && IsStripped(texts[k])
    ensures CleanTexts(AsColumn(texts)) == texts
  {
    if texts != [] {
      var cells := AsColumn(texts);
      assert cells[1..] == AsColumn(texts[1..]);
      CleanedIsFixpoint(texts[1..]);
      CleanStep(cells, texts[0]);
    }
  }

  lemma CleanStep(cells: Column, t: string)
    requires cells != [] && cells[0] == Some(t) && t != [] && IsStripped(t)
    ensures CleanTexts(cells) == [t] + CleanTexts(cells[1..])
  {
    assert Strip(t) == t;
  }

  /** Why loading stops the script (`sys.exit(1)`). */
  datatype LoadError = MissingColumn | NoReviews

  /** `load_data` after the CSV has been read into `table` (column name to
      cells): the review column must exist, and when no review survives
      cleaning the average-length report divides by zero. */
  function LoadTexts(table: map<string, Column>): (r: Result<seq<string>, LoadError>)
    ensures r == Failure(MissingColumn) <==> Config.TextColumn !in table
    ensures r == Failure(NoReviews) <==>
      Config.TextColumn in table && CleanTexts(table[Config.TextColumn]) == []
    ensures r.Success? ==> r.value != [] && r.value == CleanTexts(table[Config.TextColumn])
  {
    if Config.TextColumn !in table then Failure(MissingColumn)
    else
      var texts := CleanTexts(table[Config.TextColumn]);
      if texts == [] then Failure(NoReviews) else Success(texts)
  }

  // ---------------------------------------------------------------------------
  // `prepare_documents`.

  /** The documents to store and, for each, the index of its review. */
  datatype Prepared = Prepared(documents: seq<string>, reviewIndex: seq<nat>)

  /** Every review can be chunked without the loop running forever. */
  predicate AllChunkable(texts: seq<string>, chunkSize: int, overlap: int) {
    forall k :: 0 <= k < |texts| ==> Terminates(texts[k], chunkSize, overlap)
  }

  /** The chunk loop of `prepare_documents`: the chunks of every review, in
      order, each tagged with its review's index. */
  function ChunkAll(texts: seq<string>, chunkSize: int, overlap: int): (p: Prepared)
    requires AllChunkable(texts, chunkSize, overlap)
    ensures |p.documents| == |p.reviewIndex|
    ensures forall i :: 0 <= i < |p.reviewIndex| ==> p.reviewIndex[i] < |texts|
    ensures forall i, j :: 0 <= i <= j < |p.reviewIndex| ==> p.reviewIndex[i] <= p.reviewIndex[j]
    decreases |texts|
  {
    if texts == [] then Prepared([], [])
    else
      var n := |texts| - 1;
      var init := ChunkAll(texts[..n], chunkSize, overlap);
      var chunks := ChunkText(texts[n], chunkSize, overlap);
      Prepared(init.documents + chunks, init.reviewIndex + seq(|chunks|, _ => n))
  }

  /** Reference definition: the number of chunks of the reviews before `k`,
      which is where review `k`'s chunks start. */
  function ChunkOffset(texts: seq<string>, chunkSize: int, overlap: int, k: nat): nat
    requires AllChunkable(texts, chunkSize, overlap) && k <= |texts|
  {
    if k == 0 then 0
    else ChunkOffset(texts, chunkSize, overlap, k - 1) + |ChunkText(texts[k - 1], chunkSize, overlap)|
  }

  lemma {:induction false} ChunkOffsetPrefix(texts: seq<string>, chunkSize: int, overlap: int, n: nat, k: nat)
    requires AllChunkable(texts, chunkSize, overlap) && k <= n <= |texts|
    ensures ChunkOffset(texts[..n], chunkSize, overlap, k) == ChunkOffset(texts, chunkSize, overlap, k)
  {
    if k > 0 {
      ChunkOffsetPrefix(texts, chunkSize, overlap, n, k - 1);
      assert texts[..n][k - 1] == texts[k - 1];
    }
  }

  /** Review `k`'s chunks sit at positions `lo .. hi` of the chunk list, and
      the map says `k` at exactly those positions. */
  ghost predicate GroupAt(p: Prepared, chunks: seq<string>, k: nat, lo: nat, hi: nat) {
    && lo <= hi <= |p.documents| && |p.reviewIndex| == |p.documents|
    && p.documents[lo..hi] == chunks
    && forall i :: 0 <= i < |p.reviewIndex| ==> (p.reviewIndex[i] == k <==> lo <= i < hi)
  }

  /** The chunk list holds, for each review `k` in turn, exactly the chunks of
      review `k`, and the map says `k` at exactly those positions. */
  lemma {:induction false} ChunkAllGroups(texts: seq<string>, chunkSize: int, overlap: int, k: nat)
    requires AllChunkable(texts, chunkSize, overlap) && k < |texts|
    ensures |ChunkAll(texts, chunkSize, overlap).documents| == ChunkOffset(texts, chunkSize, overlap, |texts|)
    ensures GroupAt(ChunkAll(texts, chunkSize, overlap), ChunkText(texts[k], chunkSize, overlap), k,
                    ChunkOffset(texts, chunkSize, overlap, k), ChunkOffset(texts, chunkSize, overlap, k + 1))
    decreases |texts|
  {
    ChunkAllLength(texts, chunkSize, overlap);
    var n := |texts| - 1;
    ChunkAllLength(texts[..n], chunkSize, overlap);
    ChunkOffsetPrefix(texts, chunkSize, overlap, n, n);
    if k < n {
      ChunkAllGroups(texts[..n], chunkSize, overlap, k);
      ChunkOffsetPrefix(texts, chunkSize, overlap, n, k);
      ChunkOffsetPrefix(texts, chunkSize, overlap, n, k + 1);
      assert texts[..n][k] == texts[k];
      GroupEarlier(texts, chunkSize, overlap, k,
                   ChunkOffset(texts, chunkSize, overlap, k), ChunkOffset(texts, chunkSize, overlap, k + 1));
    } else {
      GroupLast(texts, chunkSize, overlap);
    }
  }

  /** The last review's chunks are the tail of the chunk list. */
  lemma GroupLast(texts: seq<string>, chunkSize: int, overlap: int)
    requires AllChunkable(texts, chunkSize, overlap) && texts != []
    requires |ChunkAll(texts[..|texts| - 1], chunkSize, overlap).documents|
          == ChunkOffset(texts, chunkSize, overlap, |texts| - 1)
    ensures GroupAt(ChunkAll(texts, chunkSize, overlap), ChunkText(texts[|texts| - 1], chunkSize, overlap), |texts| - 1,
                    ChunkOffset(texts, chunkSize, overlap, |texts| - 1), ChunkOffset(texts, chunkSize, overlap, |texts|))
  {
    var n := |texts| - 1;
    var init := ChunkAll(texts[..n], chunkSize, overlap);
    var chunks := ChunkText(texts[n], chunkSize, overlap);
    var p := ChunkAll(texts, chunkSize, overlap);
    assert p.documents == init.documents + chunks;
    assert p.documents[|init.documents|..|p.documents|] == chunks;
    forall i | 0 <= i < |p.reviewIndex|
      ensures p.reviewIndex[i] == n <==> |init.documents| <= i
    {
      if i < |init.reviewIndex| {
        assert p.reviewIndex[i] == init.reviewIndex[i];
      }
    }
  }

  /** An earlier review keeps the place it had in the chunk list of the
      reviews before the last one. */
  lemma GroupEarlier(texts: seq<string>, chunkSize: int, overlap: int, k: nat, lo: nat, hi: nat)
    requires AllChunkable(texts, chunkSize, overlap) && k < |texts| - 1
    requires GroupAt(ChunkAll(texts[..|texts| - 1], chunkSize, overlap), ChunkText(texts[k], chunkSize, overlap), k, lo, hi)
    ensures GroupAt(ChunkAll(texts, chunkSize, overlap), ChunkText(texts[k], chunkSize, overlap), k, lo, hi)
  {
    var n := |texts| - 1;
    var init := ChunkAll(texts[..n], chunkSize, overlap);
    var p := ChunkAll(texts, chunkSize, overlap);
    assert p.documents == init.documents + ChunkText(texts[n], chunkSize, overlap);
    assert p.documents[lo..hi] == init.documents[lo..hi];
    forall i | 0 <= i < |p.reviewIndex|
      ensures p.reviewIndex[i] == k <==> lo <= i < hi
    {
      if i >= |init.reviewIndex| {
        assert p.reviewIndex[i] == n;
      } else {
        assert p.reviewIndex[i] == init.reviewIndex[i];
      }
    }
  }

  lemma {:induction false} ChunkAllLength(texts: seq<string>, chunkSize: int, overlap: int)
    requires AllChunkable(texts, chunkSize, overlap)
    ensures |ChunkAll(texts, chunkSize, overlap).documents| == ChunkOffset(texts, chunkSize, overlap, |texts|)
    decreases |texts|
  {
    if texts != [] {
      var n := |texts| - 1;
      ChunkAllLength(texts[..n], chunkSize, overlap);
      ChunkOffsetPrefix(texts, chunkSize, overlap, n, n);
    }
  }

  /** `prepare_documents(texts)` with the chunking switch and window passed in:
      with chunking off the reviews are stored whole and review `i` is
      document `i`. */
  function PrepareDocuments(texts: seq<string>, useChunking: bool, chunkSize: int, overlap: int): (p: Prepared)
    requires useChunking ==> AllChunkable(texts, chunkSize, overlap)
    ensures |p.documents| == |p.reviewIndex|
    ensures forall i :: 0 <= i < |p.reviewIndex| ==> p.reviewIndex[i] < |texts|
    ensures !useChunking ==> p.documents == texts && forall i :: 0 <= i < |p.reviewIndex| ==> p.reviewIndex[i] == i
  {
    if useChunking then ChunkAll(texts, chunkSize, overlap)
    else Prepared(texts, seq(|texts|, i => i))
  }

  /** As the repository ships (`USE_CHUNKING = False`), whatever the window,
      every review is stored whole as its own document. */
  lemma ShippedPrepareDocuments(texts: seq<string>, chunkSize: int, overlap: int)
    ensures var p := PrepareDocuments(texts, Config.UseChunking, chunkSize, overlap);
      && p.documents == texts
      && |p.reviewIndex| == |texts|
      && forall i :: 0 <= i < |texts| ==> p.reviewIndex[i] == i
  {
  }

  // ---------------------------------------------------------------------------
  // Ids and metadatas given to the store (`store_in_chromadb`).

  /** `f"doc_{i}"`: the prefix followed by the numeral `str(i)`. */
  function DocId(i: nat): (id: string)
    ensures |id| > |Config.DocIdPrefix| && id[..|Config.DocIdPrefix|] == Config.DocIdPrefix
    ensures Canonical(id[|Config.DocIdPrefix|..]) && ParseDecimal(id[|Config.DocIdPrefix|..]) == i
  {
    ParseNatToString(i);
    var id := Config.DocIdPrefix + NatToString(i);
    assert id[|Config.DocIdPrefix|..] == NatToString(i);
    id
  }

  /** The index a document id was made from, if it is `doc_` followed by a
      numeral as `str` prints it. */
  function ParseDocId(id: string): Option<nat> {
    var n := |Config.DocIdPrefix|;
    if |id| > n && id[..n] == Config.DocIdPrefix && Canonical(id[n..]) then Some(ParseDecimal(id[n..]))
    else None
  }

  /** Every document id reads back as the index it was made from. */
  lemma DocIdRoundTrip(i: nat)
    ensures ParseDocId(DocId(i)) == Some(i)
  {
    var id := DocId(i);
    assert id[..4] == Config.DocIdPrefix && id[4..] == NatToString(i);
    ParseNatToString(i);
  }

  /** The only id that reads back as `i` is `DocId(i)`. */
  lemma ParseDocIdExact(id: string, i: nat)
    requires ParseDocId(id) == Some(i)
    ensures id == DocId(i)
  {
    var n := |Config.DocIdPrefix|;
    NatToStringParse(id[n..]);
    assert id == id[..n] + id[n..];
  }

  /** The ids of `documents`: one per document, each naming its position, all distinct. */
  function DocIds(count: nat): (ids: seq<string>)
    ensures |ids| == count
    ensures forall i :: 0 <= i < count ==> ParseDocId(ids[i]) == Some(i)
    ensures forall i, j :: 0 <= i < j < count ==> ids[i] != ids[j]
  {
    var ids := seq(count, i requires 0 <= i < count => DocId(i));
    assert forall i :: 0 <= i < count ==> ParseDocId(ids[i]) == Some(i) by {
      forall i | 0 <= i < count ensures ParseDocId(ids[i]) == Some(i) {
        DocIdRoundTrip(i);
      }
    }
    ids
  }

  /** The review index a stored metadata records, if any. */
  function ReviewIndexOf(m: Metadata): Option<int> {
    if Config.ReviewIdxKey in m && m[Config.ReviewIdxKey].MetaInt? then Some(m[Config.ReviewIdxKey].i) else None
  }

  /** `[{"review_idx": idx} for idx in metadata_map]`: one single-key metadata
      per map entry, in order, each recording that entry. */
  function ReviewMetadatas(reviewIndex: seq<nat>): (ms: seq<Metadata>)
    ensures |ms| == |reviewIndex|
    ensures forall i :: 0 <= i < |ms| ==> ms[i].Keys == {Config.ReviewIdxKey} && ReviewIndexOf(ms[i]) == Some(reviewIndex[i])
  {
    seq(|reviewIndex|, i requires 0 <= i < |reviewIndex| => map[Config.ReviewIdxKey := MetaInt(reviewIndex[i])])
  }
}
