/** The shapes exchanged with the vector store (ChromaDB). */
module Store {
  import opened Wrappers

  /** A metadata value: the store accepts strings, integers, floats and booleans. */
  datatype MetaValue = MetaInt(i: int) | MetaReal(r: real) | MetaStr(s: string) | MetaBool(b: bool)

  type Metadata = map<string, MetaValue>

  /** The vector an embedding model returns for a text. */
  type Embedding = seq<real>

  /** The answer to a nearest-neighbour query for one query vector: the first
      row of each of the columns the store returns. A missing or empty
      `metadatas` column is `None`; a missing `documents` column is an empty
      one. The columns are not guaranteed to have equal lengths. */
  datatype QueryResponse = QueryResponse(
    ids: seq<string>,
    documents: seq<string>,
    distances: seq<real>,
    metadatas: Option<seq<Metadata>>)
}
