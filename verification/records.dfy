/** The records the vector store holds: one per chunk, keyed by an id made
    from the chunk's source path and its position in that source. */
module Records {
  import opened Wrappers
  import opened PyText

  /** An embedding vector. Its values come from the embedding service and
      are never inspected by the code modelled here. */
  type Embedding = seq<real>

  /** The metadata dictionary attached to every chunk:
      `{"source", "chunk_index", "last_updated"}`. */
  datatype Metadata = Metadata(source: string, chunkIndex: int, lastUpdated: string)

  /** One entry of the collection: id, chunk text, metadata and embedding. */
  datatype Record = Record(id: string, document: string, metadata: Metadata, embedding: Embedding)

  /** The parts an id is made of. */
  datatype Key = Key(source: string, chunkIndex: int)

  /** `f"{meta['source']}_{meta['chunk_index']}"`. */
  function RecordId(m: Metadata): (id: string)
    ensures |id| > |m.source| && id[..|m.source|] == m.source && id[|m.source|] == '_'
  {
    m.source + "_" + IntToDecimal(m.chunkIndex)
  }

  /** Splits an id at its last '_' into a source and a chunk index. */
  function ParseId(id: string): Option<Key> {
    var k := LastIndexOf(id, '_', 0, |id|);
    if k == -1 then None
    else match ParseInt(id[k + 1..])
      case None => None
      case Some(i) => Some(Key(id[..k], i))
  }

  /** An id gives back the source and chunk index it was made from: the
      decimal suffix holds no '_', so the last '_' is the one after the
      source, whatever the source itself contains. */
  lemma IdRoundTrip(m: Metadata)
    ensures ParseId(RecordId(m)) == Some(Key(m.source, m.chunkIndex))
  {
    var id, n := RecordId(m), |m.source|;
    var digits := IntToDecimal(m.chunkIndex);
    assert id == m.source + "_" + digits;
    assert id[n + 1..] == digits;
    forall k | n + 1 <= k < |id|
      ensures id[k] != '_'
    {
      assert id[k] == digits[k - n - 1];
    }
    LastIndexOfIs(id, '_', 0, |id|, n);
    IntDecimalRoundTrip(m.chunkIndex);
  }

  /** Two chunks get the same id exactly when they have the same source and
      the same chunk index. */
  lemma RecordIdInjective(a: Metadata, b: Metadata)
    ensures RecordId(a) == RecordId(b) <==> a.source == b.source && a.chunkIndex == b.chunkIndex
  {
    if RecordId(a) == RecordId(b) {
      IdRoundTrip(a);
      IdRoundTrip(b);
    }
  }
}
