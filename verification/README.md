# Review retrieval and ingestion, modelled in Dafny

This project models the two pieces of pure logic in a small retrieval system
for restaurant reviews. Everything around them talks to an embedding model,
a ChromaDB collection, pandas or Flask.

**Retrieval** (`Retriever.retrieve`, module `Retrieval`). A query is rejected
when it strips to nothing. `top_k` and `threshold` get their defaults: a
`top_k` of `None` or `0` becomes `TOP_K = 5`, and a `threshold` of `None`
becomes `0.5`. An explicit `0.0` threshold is kept. The stripped query is
embedded and sent to the store. Each returned distance `d` becomes a
similarity `1/(1+d)`. A neighbour is kept when that unrounded similarity is at
least the threshold. Kept neighbours are formatted in the store's order, with
score and distance rounded to four decimals. Every failure below the
retriever becomes a `RetrieverError`.

The embedding model and the store are a `Backend`: two functions that return
either a value or an exception. The store's answer is modelled column by
column (`ids`, `documents`, `distances`, optional `metadatas`), as the loop
reads it. A missing distance, a distance of `-1` (division by zero), or a
missing id or metadata on a kept row is a formatting failure, exactly where
the loop would raise. Distances and scores are exact `real`s. `round(x, 4)`
is modelled as exact round-half-to-even to four decimals.

`Retrieve` is a pure function of the query, the parameters and the backend.
So repeating a call against an unchanged store and a deterministic model
gives the same answer by construction.

**Ingestion** (module `Ingest`, plus `Chunking` for `chunk_text`).
- Cleaning the review column: drop missing cells, strip, drop empty ones.
  Loading fails when the column is missing, and also when no review
  survives, because the average-length report then divides by zero.
- `chunk_text`: a window of `chunk_size` characters that advances by
  `chunk_size - overlap`. Python slicing is modelled, including negative ends.
- `prepare_documents`: the chunk list and the chunk-to-review map.
- The ids `doc_<i>` and the `{"review_idx": idx}` metadatas handed to the store.

`USE_CHUNKING`, `CHUNK_SIZE` and `CHUNK_OVERLAP` are parameters of
`PrepareDocuments`. The configuration file defines only the first, which is
`False`.

Three behaviours of the code worth knowing, all modelled as written:
- `RetrieverError` is one exception class. The model tags its two origins:
  `EmptyQuery` for a blank query, and `RetrievalFailed(cause)` for an
  exception raised by the embedding model, the store or the formatting loop.
- Every non-zero `top_k`, negative ones included, is passed to the store
  unchanged.
- When the store's answer has no `metadatas` column, each result gets the
  empty metadata `{}`.

## Model

| member | source | states |
|---|---|---|
| `Text.Strip` | retrieve.py:41 | `str.strip()`: the result has no leading or trailing whitespace; it is empty exactly when the input is all whitespace; it is the infix left after a whitespace-only prefix and suffix; an already stripped text is unchanged |
| `Text.StripIdempotent` | ingest.py:36 | stripping twice equals stripping once |
| `Text.StripUnique` | retrieve.py:41 | a non-empty stripped text surrounded only by whitespace strips to itself, so `Strip` is fully determined |
| `Text.StripIgnoresPadding` | retrieve.py:49 | adding whitespace around a text does not change what it strips to |
| `Decimal.NatToString` | ingest.py:124 | `str(i)`: non-empty, digits only, no leading zero except in "0" |
| `Decimal.ParseNatToString` | ingest.py:124 | parsing the numeral of `n` gives back `n` |
| `Decimal.NatToStringInjective` | ingest.py:124 | distinct numbers print as distinct numerals |
| `Decimal.NatToStringParse` | ingest.py:124 | every canonical numeral (digits only, no leading zero except "0") is the numeral `str` prints for its value, so `str(i)` reaches exactly the canonical numerals |
| `Scoring.Similarity` | retrieve.py:64-65 | `1/(1+d)` times `1+d` is 1; for `d >= 0` the score lies in (0, 1] and equals 1 exactly when `d = 0` |
| `Scoring.DistanceOfSimilarity` | retrieve.py:65 | the distance is recovered from its score, so scores and distances correspond one to one |
| `Scoring.SimilarityStrictlyDecreasing` | retrieve.py:65 | a larger non-negative distance gives a strictly smaller score |
| `Scoring.RoundHalfEven` | retrieve.py:72-73 | Python's `round` to an integer: the result is the floor or the next integer, within 0.5 of the value, and even when the value lies exactly halfway |
| `Scoring.Round4` | retrieve.py:72-73 | `round(x, 4)`: the displayed value has at most four decimals and lies within 0.00005 of `x` |
| `Scoring.Round4OnGrid` | retrieve.py:72-73 | values with at most four decimals are displayed unchanged |
| `Scoring.Round4Monotone` | retrieve.py:72-73 | display rounding preserves order |
| `Scoring.DisplayedScoreInUnitInterval` | test_retrieve.py:16 | the displayed score of a non-negative distance is in [0, 1] |
| `Scoring.DisplayedScoreMeetsGridThreshold` | test_retrieve.py:33-34 | a kept neighbour's displayed score still meets a threshold with at most four decimals, such as 0.7 |
| `Scoring.DisplayedScoreCanUndercutThreshold` | retrieve.py:68-72 | with threshold 0.70004, a neighbour kept at similarity 0.70004 is displayed as 0.7, below the threshold |
| `Retrieval.ResolveTopK` | retrieve.py:44 | `None` and `0` become `TOP_K` (5); any other integer is kept; the result is never 0 |
| `Retrieval.ResolveThreshold` | retrieve.py:45 | `None` becomes 0.5; any given value, 0.0 included, is kept |
| `Retrieval.Score` | retrieve.py:69-75 | the entry for a kept neighbour: id, text and metadata copied from the neighbour (`{}` when it has none); score and distance displayed with at most four decimals, each within 0.00005 of the unrounded similarity and distance |
| `Retrieval.Select` | retrieve.py:62-76 | the filter over typed neighbours never returns more results than neighbours |
| `Retrieval.KeptFrom` | retrieve.py:62-68 | reference definition: strictly increasing positions, where a position is listed exactly when its similarity is at least the threshold |
| `Retrieval.SelectIsKeptNeighbors` | retrieve.py:62-75 | the filtered list is exactly the scored neighbours at the kept positions, in order: nothing reordered, duplicated or invented, and a neighbour is dropped if and only if its similarity is below the threshold |
| `Retrieval.SelectIsSubsequence` | retrieve.py:62-76 | the filtered list is an order-preserving subsequence of all scored neighbours |
| `Retrieval.SelectKeepsAll` | retrieve.py:68 | when every neighbour meets the threshold, all are returned, scored, in order |
| `Retrieval.SelectDropsAll` | retrieve.py:68 | when no neighbour meets the threshold, the result is empty |
| `Retrieval.SelectNonPositiveThreshold` | retrieve.py:68 | a threshold of at most 0 keeps every neighbour at a non-negative distance |
| `Retrieval.SelectThresholdAboveOne` | retrieve.py:68 | a threshold above 1 keeps none |
| `Retrieval.SelectMonotone` | retrieve.py:68 | raising the threshold yields a subsequence of the earlier result |
| `Retrieval.FormatFrom` | retrieve.py:62-75 | the formatting loop from iteration `i` returns at most one entry per remaining document |
| `Retrieval.FormatResults` | retrieve.py:59-77 | the formatted list is never longer than the store's answer |
| `Retrieval.FormatSucceedsIff` | retrieve.py:61-75 | formatting succeeds if and only if no iteration hits a missing distance, a distance of -1, or a kept row without id or metadata |
| `Retrieval.FormatFirstFailure` | retrieve.py:61-80 | a failing formatting reports the exception of the first failing iteration and keeps no partial list |
| `Retrieval.FormatComplete` | retrieve.py:61-75 | on an answer whose columns have equal lengths and no distance at -1, the loop returns the filter over the answer's neighbours |
| `Retrieval.FormatCopiesRow` | retrieve.py:69-75 | result `k` is built from row `j`, the `k`-th kept position: id, text and metadata from that row (`{}` when there are no metadatas), rounded score and distance from that row, and that row's unrounded similarity meets the threshold |
| `Retrieval.FormatMonotone` | retrieve.py:68-75 | raising the threshold never turns a successful formatting into a failure and keeps a subsequence of the results |
| `Retrieval.Retrieve` | retrieve.py:29-80 | the call fails with `EmptyQuery` exactly when the query is empty or all whitespace, whatever the backend; against a store that honours `n_results`, a success has at most the resolved `top_k` results |
| `Retrieval.BlankQueryIgnoresBackend` | retrieve.py:41-42 | a blank query gives `EmptyQuery` for every backend, so no embedding or store call can influence it |
| `Retrieval.RetrieveDependsOnStrippedQuery` | retrieve.py:49 | queries that strip to the same text give the same answer |
| `Retrieval.RetrieveWrapsBackendFailure` | retrieve.py:47-80 | an exception from the embedding model, or else from the store, becomes `RetrievalFailed(BackendFailure(m))` carrying that exception's message `m` |
| `Retrieval.RetrieveWrapsFormatFailure` | retrieve.py:61-80 | an exception raised in the formatting loop (a missing row, a distance of -1) becomes `RetrievalFailed` carrying that cause, with no partial results |
| `Retrieval.RetrieveComplete` | retrieve.py:44-77 | with a successful embedding and a complete store answer, the call returns the filter of the answer's neighbours at the resolved threshold |
| `Retrieval.RetrieveThresholdMonotone` | retrieve.py:45-68 | raising an explicit threshold keeps the call successful and returns a subsequence of the earlier results |
| `Retrieval.TwoNeighborExample` | retrieve.py:65-68 | distances 0 and 1 score 1 and 0.5; threshold 0.5 keeps both, nearer first; 0.6 keeps only the first |
| `Chunking.PySlice` | ingest.py:20 | `text[start:end]`: never longer than the text; a non-empty slice is the run of the text from `start`; an in-range end gives `text[start..end]`, an end past the text gives the rest of the text, and the slice is at most `end - start` long; a negative end counts from the back, giving `text[start..len + end]`, and an end at or before `start` once resolved gives the empty slice |
| `Chunking.ChunkText` | ingest.py:12-22 | `chunk_text` returns no chunks exactly when the text is empty, and no chunk is longer than the text |
| `Chunking.ChunkTextLoop` | ingest.py:12-22 | the while loop computes the chunk list `ChunkText`, terminating whenever the text is empty or the step is positive |
| `Chunking.StartAfter` | ingest.py:17-21 | the value of `start` after `n` iterations; with a positive stride it is never negative |
| `Chunking.NoStrideNeverEnds` | ingest.py:17-21 | on a non-empty text with `chunk_size - overlap <= 0`, `start` never becomes positive, so the loop guard holds after every iteration and the loop does not end |
| `Chunking.StartAfterIsWindowStart` | ingest.py:17-21 | with a positive stride, `start` after `n` iterations is `n * (chunk_size - overlap)` |
| `Chunking.ChunkCount` | ingest.py:16-21 | empty text gives no chunks; otherwise there are ceil(length / step) chunks |
| `Chunking.ChunkAt` | ingest.py:18-21 | chunk `i` is the Python slice `text[i*step : i*step + chunk_size]`, with its start inside the text |
| `Chunking.ChunkWindow` | ingest.py:18-20 | for a positive chunk size, chunk `i` is `text[i*step .. min(i*step + chunk_size, len(text))]`, non-empty and at most `chunk_size` long |
| `Chunking.FirstChunkIsPrefix` | ingest.py:16-20 | the first chunk of a non-empty text is a prefix of it |
| `Chunking.ChunksCover` | ingest.py:16-21 | with `0 <= overlap < chunk_size`, position `p` lies in chunk `p / step` and that chunk holds the same character there |
| `Ingest.CleanTexts` | ingest.py:35-41 | cleaned texts are non-empty and stripped, and there are no more of them than cells |
| `Ingest.CleanTextsInOrder` | ingest.py:35-41 | the cleaned texts are a subsequence of the stripped cells, so the original order is kept |
| `Ingest.CleanTextsKeepsReviews` | ingest.py:35-41 | every present cell with non-whitespace content appears, stripped, among the cleaned texts |
| `Ingest.ReviewPositions` | ingest.py:35-41 | reference definition: strictly increasing positions, where a position is listed exactly when its cell is present and not all whitespace |
| `Ingest.CleanTextsIsReviews` | ingest.py:35-41 | the cleaned texts are exactly the stripped cells at those positions, in column order, so every surviving row is kept, repeated reviews included, and their number is the number of such cells |
| `Ingest.CleanTextsIdempotent` | ingest.py:35-41 | cleaning an already cleaned column changes nothing |
| `Ingest.LoadTexts` | ingest.py:31-44 | loading fails exactly when the review column is missing, or when no review survives cleaning; otherwise it returns the non-empty cleaned texts |
| `Ingest.ChunkAll` | ingest.py:62-72 | the chunk list and the map have equal length; map entries lie in [0, len(texts)) and are non-decreasing |
| `Ingest.ChunkAllGroups` | ingest.py:65-69 | review `k`'s chunks sit, in order, between the chunk counts of the reviews before `k` and before `k+1`, and the map says `k` at exactly those positions |
| `Ingest.PrepareDocuments` | ingest.py:56-75 | equal-length outputs with map entries below len(texts); with chunking off, the reviews are returned unchanged and entry `i` is `i` |
| `Ingest.ShippedPrepareDocuments` | ingest.py:60-75 | with the shipped `USE_CHUNKING = False`, every review is stored whole as its own document, whatever the window |
| `Ingest.DocId` | ingest.py:124 | `f"doc_{i}"`: the prefix `doc_` followed by a canonical numeral whose value is `i` |
| `Ingest.DocIdRoundTrip` | ingest.py:124 | every id `doc_<i>` reads back as `i` |
| `Ingest.ParseDocIdExact` | ingest.py:124 | the only id that reads back as `i` is `doc_` followed by `str(i)`, so reading back is exact in both directions |
| `Ingest.DocIds` | ingest.py:124 | one id per document, the `i`-th reading back as position `i` (which, by `ParseDocIdExact`, makes it exactly `doc_` followed by `str(i)`), all pairwise distinct |
| `Ingest.ReviewMetadatas` | ingest.py:125 | one single-key metadata per map entry, in order, each recording that entry under `review_idx` |

## Left out

- `Retriever.__init__`, `get_retriever` and the module-level `retrieve` wrapper: client construction, model loading and a lazily built global, with no logic to state.
- The embedding model and `collection.query`: they are the `Backend` parameter, not implemented.
- Floating point: distances, scores and thresholds are exact reals. NaN and infinities are not modelled. `round` is modelled on the exact value, not on its binary approximation.
- A `query` that is `None` or not a string: the model takes a string. An empty string is covered.
- Store answers with no result rows, `None` columns, or a per-row `None` metadata: a missing `documents` column is modelled as an empty one, and metadata rows are always maps.
- Retrieval.FormatComplete: the result list is characterised only for answers whose columns have equal lengths. For ragged answers, only success versus failure, the failing cause, the length bound and threshold monotonicity are proved.
- Retrieval.Retrieve: the bound by `top_k` is stated only for a store that returns at most `n_results` neighbours, since the store's own guarantee is outside the model.
- CSV reading, `sys.exit`, and the printed progress lines of `load_data`, `prepare_documents` and `main`. The only printed line with an effect is the average-length report, which fails on zero reviews; it is modelled as `NoReviews`.
- `astype(str)` on non-string cells: the column's cells are modelled as texts or missing.
- `create_embeddings` and the ChromaDB writes in `store_in_chromadb`: I/O. Only the ids and metadatas built there are modelled.
- The Flask application: it is an HTTP adapter over `retrieve`.
- Concurrency and single initialisation of the shared retriever: there is no shared state in the model.
