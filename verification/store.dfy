/** `VectorStore`: a wrapper around one collection of the vector database.
    The collection is modelled as the sequence of its records, in the order
    the database keeps them, held in a field the wrapper's methods update.
    The database's own behaviour that the wrapper relies on is stated here:
    `get(ids=[id])` returns the records with that id, `delete(ids)` removes
    the records whose id is listed, `update` replaces the record with the
    given id, and `query` returns the best `n_results` records that pass
    the `where` filter. */
module Store {
  import opened Wrappers
  import opened Records
  import opened PyText

  /** A `where` filter: no filter, or one metadata field equal to a value. */
  datatype Where =
    | Everything
    | SourceIs(source: string)
    | ChunkIndexIs(chunkIndex: int)
    | LastUpdatedIs(lastUpdated: string)

  predicate Matches(m: Metadata, w: Where) {
    match w
    case Everything => true
    case SourceIs(s) => m.source == s
    case ChunkIndexIs(i) => m.chunkIndex == i
    case LastUpdatedIs(t) => m.lastUpdated == t
  }

  /** The records whose metadata passes `w` (with `matching` false: fails
      it), in collection order. */
  function Filter(rs: seq<Record>, w: Where, matching: bool): (r: seq<Record>)
    ensures |r| <= |rs|
    decreases |rs|
  {
    if rs == [] then []
    else
      var last := rs[|rs| - 1];
      Filter(rs[..|rs| - 1], w, matching) + if Matches(last.metadata, w) == matching then [last] else []
  }

  /** A record is kept exactly when it is in the collection and its
      metadata passes (or fails) the filter. */
  lemma {:induction false} FilterSpec(rs: seq<Record>, w: Where, matching: bool)
    ensures forall x :: x in Filter(rs, w, matching) <==> x in rs && Matches(x.metadata, w) == matching
    decreases |rs|
  {
    if rs != [] {
      var init := rs[..|rs| - 1];
      FilterSpec(init, w, matching);
      assert rs == init + [rs[|rs| - 1]];
    }
  }

  lemma FilterSnoc(rs: seq<Record>, x: Record, w: Where, matching: bool)
    ensures Filter(rs + [x], w, matching) ==
      Filter(rs, w, matching) + if Matches(x.metadata, w) == matching then [x] else []
  {
    assert (rs + [x])[..|rs|] == rs;
  }

  /** Every record passes a filter or fails it: the two parts add up. */
  lemma {:induction false} FilterPartition(rs: seq<Record>, w: Where)
    ensures |Filter(rs, w, true)| + |Filter(rs, w, false)| == |rs|
    decreases |rs|
  {
    if rs != [] {
      FilterPartition(rs[..|rs| - 1], w);
    }
  }

  /** A filter that every record passes keeps the whole sequence. */
  lemma {:induction false} FilterKeepsAll(rs: seq<Record>, w: Where, matching: bool)
    requires forall i :: 0 <= i < |rs| ==> Matches(rs[i].metadata, w) == matching
    ensures Filter(rs, w, matching) == rs
    decreases |rs|
  {
    if rs != [] {
      var init := rs[..|rs| - 1];
      FilterKeepsAll(init, w, matching);
      assert init + [rs[|rs| - 1]] == rs;
    }
  }

  /** The ids of the records, in order. */
  function Ids(rs: seq<Record>): (ids: seq<string>)
    ensures |ids| == |rs|
    ensures forall i :: 0 <= i < |rs| ==> ids[i] == rs[i].id
  {
    seq(|rs|, i requires 0 <= i < |rs| => rs[i].id)
  }

  /** No two records share an id. */
  predicate DistinctIds(rs: seq<Record>) {
    forall i, j :: 0 <= i < j < |rs| ==> rs[i].id != rs[j].id
  }

  lemma DistinctIdsSnoc(rs: seq<Record>, x: Record)
    ensures DistinctIds(rs + [x]) <==> DistinctIds(rs) && forall y :: y in rs ==> y.id != x.id
  {
    var s := rs + [x];
    if DistinctIds(s) {
      forall y | y in rs
        ensures y.id != x.id
      {
        var i :| 0 <= i < |rs| && rs[i] == y;
        assert s[i] == y && s[|rs|] == x;
      }
      forall i, j | 0 <= i < j < |rs|
        ensures rs[i].id != rs[j].id
      {
        assert s[i] == rs[i] && s[j] == rs[j];
      }
    }
    if DistinctIds(rs) && forall y :: y in rs ==> y.id != x.id {
      forall i, j | 0 <= i < j < |s|
        ensures s[i].id != s[j].id
      {
        if j == |rs| {
          assert s[i] in rs;
        } else {
          assert s[i] == rs[i] && s[j] == rs[j];
        }
      }
    }
  }

  lemma {:induction false} FilterKeepsDistinct(rs: seq<Record>, w: Where, matching: bool)
    requires DistinctIds(rs)
    ensures DistinctIds(Filter(rs, w, matching))
    decreases |rs|
  {
    if rs != [] {
      var init, last := rs[..|rs| - 1], rs[|rs| - 1];
      assert rs == init + [last];
      DistinctIdsSnoc(init, last);
      FilterKeepsDistinct(init, w, matching);
      FilterSpec(init, w, matching);
      if Matches(last.metadata, w) == matching {
        DistinctIdsSnoc(Filter(init, w, matching), last);
      }
    }
  }

  /** The first record with the given id, as `get(ids=[id])` finds it. */
  function Find(rs: seq<Record>, id: string): (r: Option<Record>)
    ensures r.None? <==> forall x :: x in rs ==> x.id != id
    ensures r.Some? ==> r.value in rs && r.value.id == id
    decreases |rs|
  {
    if rs == [] then None
    else if rs[0].id == id then Some(rs[0])
    else Find(rs[1..], id)
  }

  /** With distinct ids, the record holding an id is the one found. */
  lemma {:induction false} FindUnique(rs: seq<Record>, k: nat)
    requires DistinctIds(rs) && k < |rs|
    ensures Find(rs, rs[k].id) == Some(rs[k])
    decreases |rs|
  {
    if k > 0 {
      assert rs[0].id != rs[k].id;
      var tail := rs[1..];
      assert DistinctIds(tail) by {
        forall i, j | 0 <= i < j < |tail|
          ensures tail[i].id != tail[j].id
        {
          assert tail[i] == rs[i + 1] && tail[j] == rs[j + 1];
        }
      }
      FindUnique(tail, k - 1);
    }
  }

  /** The records whose id is not listed, in collection order: what
      `delete(ids=ids)` leaves. */
  function DropIds(rs: seq<Record>, ids: seq<string>): (r: seq<Record>)
    ensures |r| <= |rs|
    decreases |rs|
  {
    if rs == [] then []
    else
      var last := rs[|rs| - 1];
      DropIds(rs[..|rs| - 1], ids) + if last.id in ids then [] else [last]
  }

  /** A record is left exactly when it is in the collection and its id is
      not listed. */
  lemma {:induction false} DropIdsSpec(rs: seq<Record>, ids: seq<string>)
    ensures forall x :: x in DropIds(rs, ids) <==> x in rs && x.id !in ids
    decreases |rs|
  {
    if rs != [] {
      var init := rs[..|rs| - 1];
      DropIdsSpec(init, ids);
      assert rs == init + [rs[|rs| - 1]];
    }
  }

  lemma {:induction false} DropIdsAppend(a: seq<Record>, b: seq<Record>, ids: seq<string>)
    ensures DropIds(a + b, ids) == DropIds(a, ids) + DropIds(b, ids)
    decreases |b|
  {
    if b == [] {
      assert a + b == a;
    } else {
      var init, last := b[..|b| - 1], b[|b| - 1];
      var tail := if last.id in ids then [] else [last];
      assert (a + b)[..|a + b| - 1] == a + init && (a + b)[|a + b| - 1] == last;
      assert DropIds(a + b, ids) == DropIds(a + init, ids) + tail;
      DropIdsAppend(a, init, ids);
      assert DropIds(b, ids) == DropIds(init, ids) + tail;
      assert (DropIds(a, ids) + DropIds(init, ids)) + tail == DropIds(a, ids) + (DropIds(init, ids) + tail);
    }
  }

  lemma {:induction false} DropIdsKeepsDistinct(rs: seq<Record>, ids: seq<string>)
    requires DistinctIds(rs)
    ensures DistinctIds(DropIds(rs, ids))
    decreases |rs|
  {
    if rs != [] {
      var init, last := rs[..|rs| - 1], rs[|rs| - 1];
      assert rs == init + [last];
      DistinctIdsSnoc(init, last);
      DropIdsKeepsDistinct(init, ids);
      DropIdsSpec(init, ids);
      if last.id !in ids {
        DistinctIdsSnoc(DropIds(init, ids), last);
      }
    }
  }

  /** Deleting every id of the collection leaves it empty. */
  lemma {:induction false} DropListedIds(rs: seq<Record>, ids: seq<string>)
    requires forall i :: 0 <= i < |rs| ==> rs[i].id in ids
    ensures DropIds(rs, ids) == []
    decreases |rs|
  {
    if rs != [] {
      DropListedIds(rs[..|rs| - 1], ids);
    }
  }

  lemma DropAllIds(rs: seq<Record>)
    ensures DropIds(rs, Ids(rs)) == []
  {
    DropListedIds(rs, Ids(rs));
  }

  /** Deleting an id no record has changes nothing. */
  lemma {:induction false} DropAbsentId(rs: seq<Record>, id: string)
    requires forall i :: 0 <= i < |rs| ==> rs[i].id != id
    ensures DropIds(rs, [id]) == rs
    decreases |rs|
  {
    if rs != [] {
      var init := rs[..|rs| - 1];
      DropAbsentId(init, id);
      assert init + [rs[|rs| - 1]] == rs;
    }
  }

  /** Deleting the id of a record that no other record shares removes just
      that record. */
  lemma DropOne(p: seq<Record>, x: Record, q: seq<Record>)
    requires forall i :: 0 <= i < |p| ==> p[i].id != x.id
    requires forall i :: 0 <= i < |q| ==> q[i].id != x.id
    ensures DropIds(p + [x] + q, [x.id]) == p + q
  {
    var ids := [x.id];
    assert DropIds([x], ids) == [] by {
      assert [x][..0] == [];
    }
    DropAbsentId(p, x.id);
    DropAbsentId(q, x.id);
    DropIdsAppend(p, [x], ids);
    assert DropIds(p + [x], ids) == p + [] == p;
    DropIdsAppend(p + [x], q, ids);
  }

  /** The collection after `update`: the record with the id is replaced. */
  function ReplaceId(rs: seq<Record>, id: string, rec: Record): (r: seq<Record>)
    ensures |r| == |rs|
  {
    seq(|rs|, i requires 0 <= i < |rs| => if rs[i].id == id then rec else rs[i])
  }

  /** An update keeps every id where it was, so ids stay distinct. */
  lemma ReplaceKeepsIds(rs: seq<Record>, rec: Record)
    ensures Ids(ReplaceId(rs, rec.id, rec)) == Ids(rs)
    ensures DistinctIds(rs) ==> DistinctIds(ReplaceId(rs, rec.id, rec))
  {
    var r := ReplaceId(rs, rec.id, rec);
    assert forall i :: 0 <= i < |rs| ==> r[i].id == rs[i].id;
  }

  /** After an update of a present id, that id holds the new record. */
  lemma ReplaceThenFind(rs: seq<Record>, rec: Record)
    requires DistinctIds(rs) && Find(rs, rec.id).Some?
    ensures Find(ReplaceId(rs, rec.id, rec), rec.id) == Some(rec)
  {
    var r := ReplaceId(rs, rec.id, rec);
    ReplaceKeepsIds(rs, rec);
    var k :| 0 <= k < |rs| && rs[k] == Find(rs, rec.id).value;
    FindUnique(r, k);
  }

  /** An update of one id leaves every other id holding what it held. */
  lemma ReplaceThenFindOther(rs: seq<Record>, rec: Record, other: string)
    requires DistinctIds(rs) && other != rec.id
    ensures Find(ReplaceId(rs, rec.id, rec), other) == Find(rs, other)
  {
    var r := ReplaceId(rs, rec.id, rec);
    ReplaceKeepsIds(rs, rec);
    if j :| 0 <= j < |rs| && rs[j].id == other {
      FindUnique(rs, j);
      FindUnique(r, j);
    } else {
      assert forall x :: x in r ==> x.id != other;
    }
  }

  /** The records `add` appends: one per chunk, with the id made from its
      metadata. */
  function NewRecords(chunks: seq<string>, embeddings: seq<Embedding>, metadata: seq<Metadata>): (r: seq<Record>)
    requires |chunks| == |embeddings| == |metadata|
    ensures |r| == |chunks|
  {
    seq(|chunks|, i requires 0 <= i < |chunks| => Record(RecordId(metadata[i]), chunks[i], metadata[i], embeddings[i]))
  }

  /** The ids of a batch are fresh: pairwise different and absent from the
      collection. */
  predicate FreshIds(rs: seq<Record>, metadata: seq<Metadata>) {
    && (forall i, j :: 0 <= i < j < |metadata| ==> RecordId(metadata[i]) != RecordId(metadata[j]))
    && (forall i, x :: 0 <= i < |metadata| && x in rs ==> x.id != RecordId(metadata[i]))
  }

  /** Adding a batch with fresh ids keeps ids distinct. */
  lemma AddKeepsDistinct(rs: seq<Record>, chunks: seq<string>, embeddings: seq<Embedding>, metadata: seq<Metadata>)
    requires |chunks| == |embeddings| == |metadata|
    requires DistinctIds(rs) && FreshIds(rs, metadata)
    ensures DistinctIds(rs + NewRecords(chunks, embeddings, metadata))
  {
    var added := NewRecords(chunks, embeddings, metadata);
    var all := rs + added;
    forall i, j | 0 <= i < j < |all|
      ensures all[i].id != all[j].id
    {
      if j < |rs| {
        assert all[i] == rs[i] && all[j] == rs[j];
      } else if i < |rs| {
        assert all[i] in rs && all[j] == added[j - |rs|];
      } else {
        assert all[i] == added[i - |rs|] && all[j] == added[j - |rs|];
      }
    }
  }

  /** After adding a batch with fresh ids, the id of chunk `i` holds that
      chunk, its metadata and its embedding. */
  lemma AddThenFindNew(rs: seq<Record>, chunks: seq<string>, embeddings: seq<Embedding>, metadata: seq<Metadata>, i: nat)
    requires |chunks| == |embeddings| == |metadata| && i < |chunks|
    requires DistinctIds(rs) && FreshIds(rs, metadata)
    ensures Find(rs + NewRecords(chunks, embeddings, metadata), RecordId(metadata[i])) ==
      Some(Record(RecordId(metadata[i]), chunks[i], metadata[i], embeddings[i]))
  {
    var all := rs + NewRecords(chunks, embeddings, metadata);
    AddKeepsDistinct(rs, chunks, embeddings, metadata);
    assert all[|rs| + i] == NewRecords(chunks, embeddings, metadata)[i];
    FindUnique(all, |rs| + i);
  }

  /** After adding a batch with fresh ids, every id already present holds
      what it held. */
  lemma AddThenFindOld(rs: seq<Record>, chunks: seq<string>, embeddings: seq<Embedding>, metadata: seq<Metadata>, id: string)
    requires |chunks| == |embeddings| == |metadata|
    requires DistinctIds(rs) && FreshIds(rs, metadata) && Find(rs, id).Some?
    ensures Find(rs + NewRecords(chunks, embeddings, metadata), id) == Find(rs, id)
  {
    var all := rs + NewRecords(chunks, embeddings, metadata);
    AddKeepsDistinct(rs, chunks, embeddings, metadata);
    var k :| 0 <= k < |rs| && rs[k] == Find(rs, id).value;
    FindUnique(rs, k);
    assert all[k] == rs[k];
    FindUnique(all, k);
  }

  /** After deleting an id, no record holds it and every other id holds
      what it held. */
  lemma DeleteThenFind(rs: seq<Record>, id: string, other: string)
    ensures Find(DropIds(rs, [id]), id).None?
    ensures other != id ==> Find(DropIds(rs, [id]), other).None? == Find(rs, other).None?
    ensures other != id && DistinctIds(rs) && Find(rs, other).Some? ==>
      Find(DropIds(rs, [id]), other) == Find(rs, other)
  {
    var r := DropIds(rs, [id]);
    DropIdsSpec(rs, [id]);
    if other != id && DistinctIds(rs) && Find(rs, other).Some? {
      var x := Find(rs, other).value;
      var k :| 0 <= k < |r| && r[k] == x;
      DropIdsKeepsDistinct(rs, [id]);
      FindUnique(r, k);
      var j :| 0 <= j < |rs| && rs[j] == x;
      FindUnique(rs, j);
    }
  }

  /** What `get_document_by_id` returns. */
  datatype Fetched = Fetched(document: string, metadata: Metadata)

  /** What `list_collections_and_embeddings` reports for the collection. */
  datatype Listing = Listing(count: nat, ids: seq<string>, metadatas: seq<Metadata>, embeddings: Option<seq<Embedding>>)

  /** What `search_similar` returns: three parallel lists. */
  datatype Hits = Hits(documents: seq<string>, metadatas: seq<Metadata>, distances: seq<real>)

  class VectorStore {
    /** The collection's records, in the order the database keeps them. */
    var records: seq<Record>
    /** The id lists of every `delete` request sent to the collection, oldest first. */
    ghost var deleteRequests: seq<seq<string>>

    /** The collection never holds two records with the same id. */
    ghost predicate Valid()
      reads this
    {
      DistinctIds(records)
    }

    /** A store opened on a persist directory: get-or-create hands back the
        "documents" collection with whatever records it already holds (none
        for a fresh directory), and no delete has been sent yet. */
    constructor (existing: seq<Record>)
      requires DistinctIds(existing)
      ensures records == existing && deleteRequests == [] && Valid()
    {
      records := existing;
      deleteRequests := [];
    }

    /** `add_documents`: one record per chunk, with id `source_chunkindex`,
        appended to the collection. */
    method AddDocuments(chunks: seq<string>, embeddings: seq<Embedding>, metadata: seq<Metadata>)
      requires Valid()
      requires |chunks| == |embeddings| == |metadata|
      requires FreshIds(records, metadata)
      modifies this
      ensures records == old(records) + NewRecords(chunks, embeddings, metadata)
      ensures deleteRequests == old(deleteRequests)
      ensures Valid()
    {
      AddKeepsDistinct(records, chunks, embeddings, metadata);
      records := records + NewRecords(chunks, embeddings, metadata);
    }

    /** `search_similar`: the first query's documents, metadatas and
        distances, at most `nResults` of them, all passing the filter. The
        order of the hits is the collection's (see README). */
    method SearchSimilar(query: Embedding, nResults: nat, where: Where, distance: (Embedding, Embedding) -> real)
      returns (hits: Hits)
      ensures var eligible := Filter(records, where, true);
        var n := Min(nResults, |eligible|);
        && |hits.documents| == n && |hits.metadatas| == n && |hits.distances| == n
        && (nResults <= |eligible| ==> n == nResults)
        && forall i :: 0 <= i < n ==>
             && hits.documents[i] == eligible[i].document
             && hits.metadatas[i] == eligible[i].metadata
             && Matches(hits.metadatas[i], where)
             && hits.distances[i] == distance(query, eligible[i].embedding)
    {
      var eligible := Filter(records, where, true);
      FilterSpec(records, where, true);
      var top := eligible[..Min(nResults, |eligible|)];
      assert forall i :: 0 <= i < |top| ==> top[i] in eligible;
      hits := Hits(
        seq(|top|, i requires 0 <= i < |top| => top[i].document),
        seq(|top|, i requires 0 <= i < |top| => top[i].metadata),
        seq(|top|, i requires 0 <= i < |top| => distance(query, top[i].embedding)));
    }

    /** `update_document` on a present id: the record with that id is
        replaced, nothing else changes. */
    method UpdateDocument(id: string, chunk: string, embedding: Embedding, metadata: Metadata)
      requires Valid() && Find(records, id).Some?
      modifies this
      ensures records == ReplaceId(old(records), id, Record(id, chunk, metadata, embedding))
      ensures deleteRequests == old(deleteRequests)
      ensures Valid()
    {
      var rec := Record(id, chunk, metadata, embedding);
      ReplaceKeepsIds(records, rec);
      records := ReplaceId(records, id, rec);
    }

    /** `delete_document`: one delete request for one id. An unknown id
        deletes nothing. */
    method DeleteDocument(id: string)
      modifies this
      ensures records == DropIds(old(records), [id])
      ensures deleteRequests == old(deleteRequests) + [[id]]
      ensures old(Valid()) ==> Valid()
    {
      if Valid() {
        DropIdsKeepsDistinct(records, [id]);
      }
      records := DropIds(records, [id]);
      deleteRequests := deleteRequests + [[id]];
    }

    /** `get_document_by_id`: the document and metadata of the record with
        the id; with no such record the result list is empty and indexing
        it fails. */
    method GetDocumentById(id: string) returns (r: Result<Fetched, string>)
      ensures r.Failure? <==> forall x :: x in records ==> x.id != id
      ensures r.Success? ==> exists x :: x in records && x.id == id &&
                                         r.value == Fetched(x.document, x.metadata)
      ensures Valid() ==> forall x :: x in records && x.id == id ==> r == Success(Fetched(x.document, x.metadata))
    {
      var found := Find(records, id);
      if Valid() {
        forall x | x in records && x.id == id
          ensures found == Some(x)
        {
          var k :| 0 <= k < |records| && records[k] == x;
          FindUnique(records, k);
        }
      }
      if found.None? {
        r := Failure("list index out of range");
      } else {
        r := Success(Fetched(found.value.document, found.value.metadata));
      }
    }

    /** `clear_collection`: fetch every id and delete them all, sending no
        request when there are none. */
    method ClearCollection()
      modifies this
      ensures records == []
      ensures deleteRequests == old(deleteRequests) + if old(records) == [] then [] else [Ids(old(records))]
      ensures Valid()
    {
      var allIds := Ids(records);
      if |allIds| > 0 {
        DropAllIds(records);
        records := DropIds(records, allIds);
        deleteRequests := deleteRequests + [allIds];
      }
    }

    /** `clear_all_embeddings`: the same steps as `clear_collection`. */
    method ClearAllEmbeddings()
      modifies this
      ensures records == []
      ensures deleteRequests == old(deleteRequests) + if old(records) == [] then [] else [Ids(old(records))]
      ensures Valid()
    {
      ClearCollection();
    }

    /** `list_collections_and_embeddings`: the number of records, their ids
        and metadatas in parallel, and the embeddings when the fetched data
        carries them (`embeddingsIncluded`). */
    method ListCollectionsAndEmbeddings(embeddingsIncluded: bool) returns (listing: Listing)
      ensures listing.count == |listing.ids| == |listing.metadatas| == |records|
      ensures forall i :: 0 <= i < |records| ==>
        listing.ids[i] == records[i].id && listing.metadatas[i] == records[i].metadata
      ensures listing.embeddings.Some? <==> embeddingsIncluded
      ensures listing.embeddings.Some? ==>
        && |listing.embeddings.value| == |records|
        && forall i :: 0 <= i < |records| ==> listing.embeddings.value[i] == records[i].embedding
    {
      var ids := Ids(records);
      var metadatas := seq(|records|, i requires 0 <= i < |records| reads this => records[i].metadata);
      var embeddings := if embeddingsIncluded
        then Some(seq(|records|, i requires 0 <= i < |records| reads this => records[i].embedding))
        else None;
      listing := Listing(|ids|, ids, metadatas, embeddings);
    }
  }
}
