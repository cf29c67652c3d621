/** `DocumentProcessor.generate_embeddings` and `process_markdown_file`:
    a file's text becomes chunks, one embedding per chunk and one metadata
    entry per chunk. Reading the file, its modification time and the call
    to the embedding service are outside the model: the text, the time
    stamp and the embedding function are parameters. */
module Ingest {
  import opened Chunker
  import opened Records

  /** One embedding per text, in order, each computed from its own text. */
  method GenerateEmbeddings(texts: seq<string>, embed: string -> Embedding) returns (embeddings: seq<Embedding>)
    ensures |embeddings| == |texts|
    ensures forall i :: 0 <= i < |texts| ==> embeddings[i] == embed(texts[i])
  {
    embeddings := [];
    for i := 0 to |texts|
      invariant |embeddings| == i
      invariant forall k :: 0 <= k < i ==> embeddings[k] == embed(texts[k])
    {
      embeddings := embeddings + [embed(texts[i])];
    }
  }

  /** The metadata loop: entry `i` names the file, the position `i` and the
      file's time stamp. */
  method BuildMetadata(chunks: seq<string>, filePath: string, lastUpdated: string) returns (metadata: seq<Metadata>)
    ensures |metadata| == |chunks|
    ensures forall i :: 0 <= i < |chunks| ==> metadata[i] == Metadata(filePath, i, lastUpdated)
  {
    metadata := [];
    for i := 0 to |chunks|
      invariant |metadata| == i
      invariant forall k :: 0 <= k < i ==> metadata[k] == Metadata(filePath, k, lastUpdated)
    {
      metadata := metadata + [Metadata(filePath, i, lastUpdated)];
    }
  }

  /** What `process_markdown_file` returns: three parallel lists. */
  datatype Processed = Processed(chunks: seq<string>, embeddings: seq<Embedding>, metadata: seq<Metadata>)

  /** The chunks of the text, their embeddings and their metadata. The text
      is cut by the corrected chunker (see `Chunker.ChunkText`). */
  method ProcessMarkdownFile(filePath: string, content: string, lastUpdated: string, embed: string -> Embedding)
    returns (p: Processed)
    ensures p.chunks == ChunkText(content)
    ensures |p.embeddings| == |p.chunks| && |p.metadata| == |p.chunks|
    ensures forall i :: 0 <= i < |p.chunks| ==>
      p.embeddings[i] == embed(p.chunks[i]) && p.metadata[i] == Metadata(filePath, i, lastUpdated)
  {
    var chunks := ChunkText(content);
    var embeddings := GenerateEmbeddings(chunks, embed);
    var metadata := BuildMetadata(chunks, filePath, lastUpdated);
    p := Processed(chunks, embeddings, metadata);
  }

  /** The chunks of one file all get different ids. */
  lemma ProcessedIdsDistinct(filePath: string, lastUpdated: string, metadata: seq<Metadata>)
    requires forall i :: 0 <= i < |metadata| ==> metadata[i] == Metadata(filePath, i, lastUpdated)
    ensures forall i, j :: 0 <= i < j < |metadata| ==> RecordId(metadata[i]) != RecordId(metadata[j])
  {
    forall i, j | 0 <= i < j < |metadata|
      ensures RecordId(metadata[i]) != RecordId(metadata[j])
    {
      RecordIdInjective(metadata[i], metadata[j]);
    }
  }
}
