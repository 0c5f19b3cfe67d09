/** `Retriever.retrieve`: query validation, default parameters, the two
    external calls (embedding, nearest-neighbour query) as a `Backend` of
    functions, distance-to-similarity conversion, threshold filtering and
    error wrapping. */
module Retrieval {
  import opened Wrappers
  import opened Store
  import opened Seqs
  import opened Text
  import opened Scoring
  import Config

  /** One neighbour the store returned, with its columns brought together. */
  datatype NeighborRecord = NeighborRecord(id: string, text: string, distance: real, metadata: Option<Metadata>)

  /** One entry of the result list; `score` and `distance` are rounded for display. */
  datatype ScoredResult = ScoredResult(id: string, text: string, score: real, distance: real, metadata: Metadata)

  /** What went wrong below the retriever: an exception raised by the embedding
      model or the store, or one raised while formatting the store's answer. */
  datatype Cause = BackendFailure(message: string) | IndexOutOfRange | ZeroDivision

  /** `RetrieverError`, tagged by the path that raised it. */
  datatype RetrieverError = EmptyQuery | RetrievalFailed(cause: Cause)

  /** The embedding model and the store collection. A `Failure` stands for an
      exception raised by the call. */
  datatype Backend = Backend(
    encode: string -> Result<Embedding, string>,
    nearest: (Embedding, int) -> Result<QueryResponse, string>)

  /** The store answers a request for `k` neighbours with at most `k` of them. */
  ghost predicate HonoursLimit(backend: Backend) {
    forall e: Embedding, k: int {:trigger backend.nearest(e, k)} ::
      backend.nearest(e, k).Success? ==> |backend.nearest(e, k).value.documents| <= k
  }

  /** `top_k or TOP_K`: both a missing value and 0 are falsy and fall back to
      the default; every other integer is used as given. */
  function ResolveTopK(topK: Option<int>): (k: int)
    ensures topK == None || topK == Some(0) ==> k == Config.TopK
    ensures topK.Some? && topK.value != 0 ==> k == topK.value
    ensures k != 0
  {
    match topK
    case None => Config.TopK
    case Some(k) => if k == 0 then Config.TopK else k
  }

  /** `threshold if threshold is not None else SIMILARITY_THRESHOLD`: an explicit
      0.0 is kept. */
  function ResolveThreshold(threshold: Option<real>): (t: real)
    ensures threshold.None? ==> t == Config.SimilarityThreshold
    ensures threshold.Some? ==> t == threshold.value
  {
    match threshold
    case None => Config.SimilarityThreshold
    case Some(t) => t
  }

  /** The result entry for a kept neighbour. */
  function Score(n: NeighborRecord): (r: ScoredResult)
    requires n.distance != -1.0
    ensures r.id == n.id && r.text == n.text
    ensures n.metadata.Some? ==> r.metadata == n.metadata.value
    ensures n.metadata.None? ==> r.metadata == map[]
    ensures OnGrid(r.score) && Similarity(n.distance) - 0.00005 <= r.score <= Similarity(n.distance) + 0.00005
    ensures OnGrid(r.distance) && n.distance - 0.00005 <= r.distance <= n.distance + 0.00005
  {
    ScoredResult(n.id, n.text, Round4(Similarity(n.distance)), Round4(n.distance), n.metadata.GetOr(map[]))
  }

  /** No neighbour sits at distance -1, where the similarity is undefined. */
  predicate NoPole(ns: seq<NeighborRecord>) {
    forall k :: 0 <= k < |ns| ==> ns[k].distance != -1.0
  }

  predicate NonNegative(ns: seq<NeighborRecord>) {
    forall k :: 0 <= k < |ns| ==> ns[k].distance >= 0.0
  }

  /** Every neighbour, scored, in the store's order. */
  function ScoreAll(ns: seq<NeighborRecord>): (r: seq<ScoredResult>)
    requires NoPole(ns)
    ensures |r| == |ns|
  {
    seq(|ns|, k requires 0 <= k < |ns| => Score(ns[k]))
  }

  /** The scored neighbours at positions `ks`, in that order. */
  function Pick(ns: seq<NeighborRecord>, ks: seq<nat>): (r: seq<ScoredResult>)
    requires NoPole(ns)
    requires forall k :: 0 <= k < |ks| ==> ks[k] < |ns|
    ensures |r| == |ks|
  {
    Gather(ScoreAll(ns), ks)
  }

  /** The filter of the formatting loop over typed neighbours: keep a neighbour
      when its unrounded similarity is at least the threshold. */
  function Select(ns: seq<NeighborRecord>, threshold: real): (r: seq<ScoredResult>)
    requires NoPole(ns)
    ensures |r| <= |ns|
  {
    if ns == [] then []
    else
      var rest := Select(ns[1..], threshold);
      if Similarity(ns[0].distance) >= threshold then [Score(ns[0])] + rest else rest
  }

  /** Reference definition: the positions, from `i` on, whose similarity meets
      the threshold, in increasing order. */
  function KeptFrom(ns: seq<NeighborRecord>, threshold: real, i: nat): (ks: seq<nat>)
    requires NoPole(ns) && i <= |ns|
    ensures forall k :: 0 <= k < |ks| ==> i <= ks[k] < |ns|
    ensures forall k, l :: 0 <= k < l < |ks| ==> ks[k] < ks[l]
    ensures forall j :: i <= j < |ns| ==> (j in ks <==> Similarity(ns[j].distance) >= threshold)
    decreases |ns| - i
  {
    if i == |ns| then []
    else
      var rest := KeptFrom(ns, threshold, i + 1);
      if Similarity(ns[i].distance) >= threshold then [i] + rest else rest
  }

  /** The filtered list is exactly the neighbours at the kept positions, in the
      store's order: nothing reordered, duplicated or invented, and a neighbour
      is dropped if and only if its similarity is below the threshold. */
  lemma {:induction false} SelectIsKeptNeighbors(ns: seq<NeighborRecord>, threshold: real, i: nat)
    requires NoPole(ns) && i <= |ns|
    ensures Select(ns[i..], threshold) == Pick(ns, KeptFrom(ns, threshold, i))
    decreases |ns| - i
  {
    if i < |ns| {
      SelectIsKeptNeighbors(ns, threshold, i + 1);
      var u := ns[i..];
      assert u[1..] == ns[i + 1..];
      assert u[0] == ns[i];
      var rest := KeptFrom(ns, threshold, i + 1);
      if Similarity(ns[i].distance) >= threshold {
        assert KeptFrom(ns, threshold, i) == [i] + rest;
        PickCons(ns, i, rest);
      } else {
        assert KeptFrom(ns, threshold, i) == rest;
      }
    }
  }

  lemma PickCons(ns: seq<NeighborRecord>, i: nat, ks: seq<nat>)
    requires NoPole(ns) && i < |ns|
    requires forall k :: 0 <= k < |ks| ==> ks[k] < |ns|
    ensures Pick(ns, [i] + ks) == [Score(ns[i])] + Pick(ns, ks)
  {
    GatherCons(ScoreAll(ns), i, ks);
  }

  /** The filtered list is an order-preserving subsequence of all scored neighbours. */
  lemma {:induction false} SelectIsSubsequence(ns: seq<NeighborRecord>, threshold: real)
    requires NoPole(ns)
    ensures IsSubsequence(Select(ns, threshold), ScoreAll(ns))
  {
    if ns != [] {
      SelectIsSubsequence(ns[1..], threshold);
      assert ScoreAll(ns)[1..] == ScoreAll(ns[1..]);
      if Similarity(ns[0].distance) < threshold {
        SubsequenceCons(Select(ns[1..], threshold), Score(ns[0]), ScoreAll(ns[1..]));
        assert ScoreAll(ns) == [Score(ns[0])] + ScoreAll(ns[1..]);
      }
    }
  }

  /** When every neighbour meets the threshold, every neighbour is kept. */
  lemma {:induction false} SelectKeepsAll(ns: seq<NeighborRecord>, threshold: real)
    requires NoPole(ns)
    requires forall k :: 0 <= k < |ns| ==> Similarity(ns[k].distance) >= threshold
    ensures Select(ns, threshold) == ScoreAll(ns)
  {
    if ns != [] {
      SelectKeepsAll(ns[1..], threshold);
      assert ScoreAll(ns) == [Score(ns[0])] + ScoreAll(ns[1..]);
    }
  }

  /** When no neighbour meets the threshold, nothing is kept. */
  lemma {:induction false} SelectDropsAll(ns: seq<NeighborRecord>, threshold: real)
    requires NoPole(ns)
    requires forall k :: 0 <= k < |ns| ==> Similarity(ns[k].distance) < threshold
    ensures Select(ns, threshold) == []
  {
    if ns != [] {
      SelectDropsAll(ns[1..], threshold);
    }
  }

  /** A threshold of at most 0 keeps every neighbour at a non-negative distance. */
  lemma SelectNonPositiveThreshold(ns: seq<NeighborRecord>, threshold: real)
    requires NonNegative(ns) && threshold <= 0.0
    ensures NoPole(ns) && Select(ns, threshold) == ScoreAll(ns)
  {
    SelectKeepsAll(ns, threshold);
  }

  /** A threshold above 1 keeps no neighbour at a non-negative distance. */
  lemma SelectThresholdAboveOne(ns: seq<NeighborRecord>, threshold: real)
    requires NonNegative(ns) && threshold > 1.0
    ensures NoPole(ns) && Select(ns, threshold) == []
  {
    SelectDropsAll(ns, threshold);
  }

  /** Raising the threshold keeps a subsequence of what the lower one kept. */
  lemma {:induction false} SelectMonotone(ns: seq<NeighborRecord>, low: real, high: real)
    requires NoPole(ns) && low <= high
    ensures IsSubsequence(Select(ns, high), Select(ns, low))
  {
    if ns != [] {
      SelectMonotone(ns[1..], low, high);
      var s := Similarity(ns[0].distance);
      if s >= high {
        assert ([Score(ns[0])] + Select(ns[1..], high))[1..] == Select(ns[1..], high);
        assert ([Score(ns[0])] + Select(ns[1..], low))[1..] == Select(ns[1..], low);
      } else if s >= low {
        SubsequenceCons(Select(ns[1..], high), Score(ns[0]), Select(ns[1..], low));
      }
    }
  }

  // ---------------------------------------------------------------------------
  // The formatting loop over the store's columns, as written.

  /** Row `i` is present in every column the loop reads for a kept neighbour. */
  predicate HasRow(resp: QueryResponse, i: nat) {
    && i < |resp.ids| && i < |resp.documents| && i < |resp.distances|
    && (resp.metadatas.Some? ==> i < |resp.metadatas.value|)
  }

  /** Row `i` of the columns, as one neighbour. */
  function NeighborAt(resp: QueryResponse, i: nat): (n: NeighborRecord)
    requires HasRow(resp, i)
  {
    NeighborRecord(
      resp.ids[i], resp.documents[i], resp.distances[i],
      if resp.metadatas.Some? then Some(resp.metadatas.value[i]) else None)
  }

  /** All columns have one entry per document, as the store returns them. */
  predicate Complete(resp: QueryResponse) {
    && |resp.ids| == |resp.documents| && |resp.distances| == |resp.documents|
    && (resp.metadatas.Some? ==> |resp.metadatas.value| == |resp.documents|)
  }

  /** The neighbours of a complete answer, in the store's order. */
  function Records(resp: QueryResponse): (ns: seq<NeighborRecord>)
    requires Complete(resp)
    ensures |ns| == |resp.documents|
  {
    seq(|resp.documents|, i requires 0 <= i < |resp.documents| => NeighborAt(resp, i))
  }

  /** Iteration `i` of the loop raises: its distance is missing or is -1, or the
      neighbour is kept and its id or metadata is missing. */
  predicate FailsAt(resp: QueryResponse, threshold: real, i: nat) {
    || i >= |resp.distances|
    || resp.distances[i] == -1.0
    || (&& Similarity(resp.distances[i]) >= threshold
        && (i >= |resp.ids| || (resp.metadatas.Some? && i >= |resp.metadatas.value|)))
  }

  /** The exception iteration `i` raises. */
  function CauseAt(resp: QueryResponse, i: nat): Cause {
    if i < |resp.distances| && resp.distances[i] == -1.0 then ZeroDivision else IndexOutOfRange
  }

  /** The loop from iteration `i` to the last document. */
  function FormatFrom(resp: QueryResponse, threshold: real, i: nat): (r: Result<seq<ScoredResult>, Cause>)
    requires i <= |resp.documents|
    ensures r.Success? ==> |r.value| <= |resp.documents| - i
    decreases |resp.documents| - i
  {
    if i == |resp.documents| then Success([])
    else if i >= |resp.distances| then Failure(IndexOutOfRange)
    else if resp.distances[i] == -1.0 then Failure(ZeroDivision)
    else if Similarity(resp.distances[i]) >= threshold then
      if !HasRow(resp, i) then Failure(IndexOutOfRange)
      else
        match FormatFrom(resp, threshold, i + 1)
        case Failure(c) => Failure(c)
        case Success(rest) => Success([Score(NeighborAt(resp, i))] + rest)
    else FormatFrom(resp, threshold, i + 1)
  }

  /** Formatting the store's answer (an empty answer gives an empty list). */
  function FormatResults(resp: QueryResponse, threshold: real): (r: Result<seq<ScoredResult>, Cause>)
    ensures r.Success? ==> |r.value| <= |resp.documents|
  {
    FormatFrom(resp, threshold, 0)
  }

  /** An iteration that does not raise passes the outcome of the rest through,
      with its own entry in front when the neighbour is kept. */
  lemma FormatFromStep(resp: QueryResponse, threshold: real, i: nat)
    requires i < |resp.documents| && !FailsAt(resp, threshold, i)
    ensures FormatFrom(resp, threshold, i).Success? <==> FormatFrom(resp, threshold, i + 1).Success?
    ensures FormatFrom(resp, threshold, i + 1).Failure? ==>
      FormatFrom(resp, threshold, i) == FormatFrom(resp, threshold, i + 1)
  {
  }

  lemma {:induction false} FormatFromSucceedsIff(resp: QueryResponse, threshold: real, i: nat)
    requires i <= |resp.documents|
    ensures FormatFrom(resp, threshold, i).Success? <==>
      forall j :: i <= j < |resp.documents| ==> !FailsAt(resp, threshold, j)
    decreases |resp.documents| - i
  {
    if i < |resp.documents| {
      FormatFromSucceedsIff(resp, threshold, i + 1);
      if !FailsAt(resp, threshold, i) {
        FormatFromStep(resp, threshold, i);
      }
    }
  }

  /** Formatting succeeds exactly when no iteration raises. */
  lemma FormatSucceedsIff(resp: QueryResponse, threshold: real)
    ensures FormatResults(resp, threshold).Success? <==>
      forall j :: 0 <= j < |resp.documents| ==> !FailsAt(resp, threshold, j)
  {
    FormatFromSucceedsIff(resp, threshold, 0);
  }

  lemma {:induction false} FormatFromFirstFailure(resp: QueryResponse, threshold: real, i: nat, j: nat)
    requires i <= j < |resp.documents| && FailsAt(resp, threshold, j)
    requires forall l :: i <= l < j ==> !FailsAt(resp, threshold, l)
    ensures FormatFrom(resp, threshold, i) == Failure(CauseAt(resp, j))
    decreases j - i
  {
    if i < j {
      FormatFromFirstFailure(resp, threshold, i + 1, j);
      FormatFromStep(resp, threshold, i);
    }
  }

  /** A failing formatting reports the exception of the first iteration that raises;
      no partial list survives. */
  lemma FormatFirstFailure(resp: QueryResponse, threshold: real, j: nat)
    requires j < |resp.documents| && FailsAt(resp, threshold, j)
    requires forall l :: 0 <= l < j ==> !FailsAt(resp, threshold, l)
    ensures FormatResults(resp, threshold) == Failure(CauseAt(resp, j))
  {
    FormatFromFirstFailure(resp, threshold, 0, j);
  }

  lemma {:induction false} FormatFromComplete(resp: QueryResponse, threshold: real, i: nat)
    requires Complete(resp) && NoPole(Records(resp)) && i <= |resp.documents|
    ensures FormatFrom(resp, threshold, i) == Success(Select(Records(resp)[i..], threshold))
    decreases |resp.documents| - i
  {
    if i < |resp.documents| {
      FormatFromComplete(resp, threshold, i + 1);
      assert Records(resp)[i..][1..] == Records(resp)[i + 1..];
      assert Records(resp)[i..][0] == NeighborAt(resp, i);
    }
  }

  /** On a complete answer with no distance at -1, the loop computes `Select`
      over the answer's neighbours. */
  lemma FormatComplete(resp: QueryResponse, threshold: real)
    requires Complete(resp) && NoPole(Records(resp))
    ensures FormatResults(resp, threshold) == Success(Select(Records(resp), threshold))
  {
    FormatFromComplete(resp, threshold, 0);
    assert Records(resp)[0..] == Records(resp);
  }

  /** Result `k` of a complete answer is built from row `j` of the columns,
      `j` the `k`-th kept position: its id, text and metadata (or `{}` when the
      store sent no metadatas) are row `j`'s, its score and distance are row
      `j`'s rounded, and row `j`'s unrounded similarity meets the threshold. */
  lemma FormatCopiesRow(resp: QueryResponse, threshold: real, k: nat)
    requires Complete(resp) && NoPole(Records(resp))
    requires k < |Select(Records(resp), threshold)|
    ensures var r := FormatResults(resp, threshold);
      var ks := KeptFrom(Records(resp), threshold, 0);
      && r == Success(Select(Records(resp), threshold))
      && |r.value| == |ks| && ks[k] < |resp.documents|
      && var j := ks[k];
      && resp.distances[j] != -1.0
      && Similarity(resp.distances[j]) >= threshold
      && r.value[k].id == resp.ids[j]
      && r.value[k].text == resp.documents[j]
      && r.value[k].score == Round4(Similarity(resp.distances[j]))
      && r.value[k].distance == Round4(resp.distances[j])
      && r.value[k].metadata == (if resp.metadatas.Some? then resp.metadatas.value[j] else map[])
  {
    var ns := Records(resp);
    FormatComplete(resp, threshold);
    SelectIsKeptNeighbors(ns, threshold, 0);
    assert ns[0..] == ns;
    var ks := KeptFrom(ns, threshold, 0);
    var j := ks[k];
    assert j in ks;
    assert ns[j] == NeighborAt(resp, j);
  }

  lemma {:induction false} FormatFromMonotone(resp: QueryResponse, low: real, high: real, i: nat)
    requires low <= high && i <= |resp.documents|
    requires FormatFrom(resp, low, i).Success?
    ensures FormatFrom(resp, high, i).Success?
    ensures IsSubsequence(FormatFrom(resp, high, i).value, FormatFrom(resp, low, i).value)
    decreases |resp.documents| - i
  {
    if i < |resp.documents| {
      FormatFromMonotone(resp, low, high, i + 1);
      var rh := FormatFrom(resp, high, i + 1).value;
      var rl := FormatFrom(resp, low, i + 1).value;
      var s := Similarity(resp.distances[i]);
      if s >= high {
        var x := Score(NeighborAt(resp, i));
        assert ([x] + rh)[1..] == rh && ([x] + rl)[1..] == rl;
      } else if s >= low {
        SubsequenceCons(rh, Score(NeighborAt(resp, i)), rl);
      }
    }
  }

  /** Raising the threshold never turns a successful formatting into a failure,
      and keeps a subsequence of the earlier list. */
  lemma FormatMonotone(resp: QueryResponse, low: real, high: real)
    requires low <= high && FormatResults(resp, low).Success?
    ensures FormatResults(resp, high).Success?
    ensures IsSubsequence(FormatResults(resp, high).value, FormatResults(resp, low).value)
  {
    FormatFromMonotone(resp, low, high, 0);
  }

  // ---------------------------------------------------------------------------
  // The whole call.

  /** `Retriever.retrieve(query, top_k, threshold)`. */
  function Retrieve(query: string, topK: Option<int>, threshold: Option<real>, backend: Backend)
    : (r: Result<seq<ScoredResult>, RetrieverError>)
    ensures r == Failure(EmptyQuery) <==> AllWhitespace(query)
    ensures r.Success? && HonoursLimit(backend) ==> |r.value| <= ResolveTopK(topK)
  {
    var q := Strip(query);
    if q == [] then Failure(EmptyQuery)
    else
      var k := ResolveTopK(topK);
      var t := ResolveThreshold(threshold);
      match backend.encode(q)
      case Failure(m) => Failure(RetrievalFailed(BackendFailure(m)))
      case Success(e) =>
        match backend.nearest(e, k)
        case Failure(m) => Failure(RetrievalFailed(BackendFailure(m)))
        case Success(resp) =>
          match FormatResults(resp, t)
          case Failure(c) => Failure(RetrievalFailed(c))
          case Success(results) => Success(results)
  }

  /** A blank query fails with `EmptyQuery` whatever the backend does: its
      result does not depend on the embedding model or the store. */
  lemma BlankQueryIgnoresBackend(query: string, topK: Option<int>, threshold: Option<real>, b1: Backend, b2: Backend)
    requires AllWhitespace(query)
    ensures Retrieve(query, topK, threshold, b1) == Retrieve(query, topK, threshold, b2) == Failure(EmptyQuery)
  {
  }

  /** Leading and trailing whitespace of the query do not matter. */
  lemma RetrieveDependsOnStrippedQuery(q1: string, q2: string, topK: Option<int>, threshold: Option<real>, backend: Backend)
    requires Strip(q1) == Strip(q2)
    ensures Retrieve(q1, topK, threshold, backend) == Retrieve(q2, topK, threshold, backend)
  {
  }

  /** An exception from the embedding model or the store becomes
      `RetrievalFailed` with that exception as cause. */
  lemma RetrieveWrapsBackendFailure(query: string, topK: Option<int>, threshold: Option<real>, backend: Backend)
    requires !AllWhitespace(query)
    requires backend.encode(Strip(query)).Failure? ||
      backend.nearest(backend.encode(Strip(query)).value, ResolveTopK(topK)).Failure?
    ensures backend.encode(Strip(query)).Failure? ==>
      Retrieve(query, topK, threshold, backend)
        == Failure(RetrievalFailed(BackendFailure(backend.encode(Strip(query)).error)))
    ensures backend.encode(Strip(query)).Success? ==>
      Retrieve(query, topK, threshold, backend)
        == Failure(RetrievalFailed(BackendFailure(backend.nearest(backend.encode(Strip(query)).value, ResolveTopK(topK)).error)))
  {
  }

  /** An exception raised while formatting the store's answer (a missing row,
      a distance of -1) becomes `RetrievalFailed` with that exception as cause,
      and no partial results are returned. */
  lemma RetrieveWrapsFormatFailure(query: string, topK: Option<int>, threshold: Option<real>, backend: Backend,
                                   e: Embedding, resp: QueryResponse, c: Cause)
    requires !AllWhitespace(query)
    requires backend.encode(Strip(query)) == Success(e)
    requires backend.nearest(e, ResolveTopK(topK)) == Success(resp)
    requires FormatResults(resp, ResolveThreshold(threshold)) == Failure(c)
    ensures Retrieve(query, topK, threshold, backend) == Failure(RetrievalFailed(c))
  {
  }

  /** With a complete store answer, the call returns the neighbours whose
      similarity meets the resolved threshold, scored, in the store's order. */
  lemma RetrieveComplete(query: string, topK: Option<int>, threshold: Option<real>, backend: Backend,
                         e: Embedding, resp: QueryResponse)
    requires !AllWhitespace(query)
    requires backend.encode(Strip(query)) == Success(e)
    requires backend.nearest(e, ResolveTopK(topK)) == Success(resp)
    requires Complete(resp) && NoPole(Records(resp))
    ensures Retrieve(query, topK, threshold, backend) == Success(Select(Records(resp), ResolveThreshold(threshold)))
  {
    FormatComplete(resp, ResolveThreshold(threshold));
  }

  /** Raising an explicit threshold keeps a subsequence of the earlier results. */
  lemma RetrieveThresholdMonotone(query: string, topK: Option<int>, low: real, high: real, backend: Backend)
    requires low <= high
    requires Retrieve(query, topK, Some(low), backend).Success?
    ensures Retrieve(query, topK, Some(high), backend).Success?
    ensures IsSubsequence(Retrieve(query, topK, Some(high), backend).value, Retrieve(query, topK, Some(low), backend).value)
  {
    var q := Strip(query);
    var e := backend.encode(q).value;
    var resp := backend.nearest(e, ResolveTopK(topK)).value;
    FormatMonotone(resp, low, high);
  }

  /** Example: neighbours at distance 0 and 1 have similarity 1 and
      0.5; threshold 0.5 keeps both, nearer first, and 0.6 keeps only the first. */
  lemma TwoNeighborExample(a: NeighborRecord, b: NeighborRecord)
    requires a.distance == 0.0 && b.distance == 1.0
    ensures Select([a, b], 0.5) == [Score(a), Score(b)]
    ensures Select([a, b], 0.6) == [Score(a)]
    ensures Score(a).score == 1.0 && Score(b).score == 0.5
  {
    assert [a, b][1..] == [b];
    Round4OnGrid(1.0);
    Round4OnGrid(0.5);
  }
}
