/** The configuration constants the modelled code reads. */
module Config {

  /** Number of neighbours requested when the caller gives none (or 0). */
  const TopK: int := 5

  /** Minimum similarity a neighbour needs when the caller gives no threshold. */
  const SimilarityThreshold: real := 0.5

  /** Whether ingestion splits reviews into chunks; the repository ships with it off. */
  const UseChunking: bool := false

  /** The CSV column holding the review texts. */
  const TextColumn: string := "Review Text"

  /** The metadata key under which each stored chunk records its review. */
  const ReviewIdxKey: string := "review_idx"

  /** Prefix of the identifiers given to stored documents. */
  const DocIdPrefix: string := "doc_"
}
