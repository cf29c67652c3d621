/** The collection-level logic of two HTTP handlers, without the HTTP layer:
    `list_documents` groups every record of the collection by its source
    file, and `delete_document` deletes every chunk of one source file and
    counts them. */
module Api {
  import opened Records
  import opened Store

  /** One entry of a source's `chunks` list: `{"content", "chunk_index"}`. */
  datatype ChunkRef = ChunkRef(content: string, chunkIndex: int)

  /** What the listing holds for one source: its chunks and a time stamp. */
  datatype SourceEntry = SourceEntry(chunks: seq<ChunkRef>, lastUpdated: string)

  function RefOf(r: Record): ChunkRef {
    ChunkRef(r.document, r.metadata.chunkIndex)
  }

  /** The chunk entries of some records, in order. */
  function Refs(rs: seq<Record>): (refs: seq<ChunkRef>)
    ensures |refs| == |rs|
    ensures forall i :: 0 <= i < |rs| ==> refs[i] == RefOf(rs[i])
  {
    seq(|rs|, i requires 0 <= i < |rs| => RefOf(rs[i]))
  }

  /** One pass of the grouping loop: a source seen for the first time gets
      an entry with no chunks and the record's time stamp; then the record's
      chunk is appended to its source's entry. */
  function AddToGroup(g: map<string, SourceEntry>, r: Record): (g': map<string, SourceEntry>)
    ensures r.metadata.source in g'
  {
    var source := r.metadata.source;
    var g1 := if source in g then g else g[source := SourceEntry([], r.metadata.lastUpdated)];
    g1[source := g1[source].(chunks := g1[source].chunks + [RefOf(r)])]
  }

  /** One pass adds the record's source to the keys and changes no other
      source's entry. The record's chunk goes last in its source's list. A
      source's time stamp is set when the source is first seen and never
      overwritten. */
  lemma AddToGroupStep(g: map<string, SourceEntry>, r: Record)
    ensures var g', source := AddToGroup(g, r), r.metadata.source;
      && g'.Keys == g.Keys + {source}
      && (forall s :: s in g && s != source ==> g'[s] == g[s])
      && g'[source].chunks == (if source in g then g[source].chunks else []) + [RefOf(r)]
      && g'[source].lastUpdated == if source in g then g[source].lastUpdated else r.metadata.lastUpdated
  {
  }

  /** The grouping after the loop has seen the records `rs`. */
  function Group(rs: seq<Record>): (g: map<string, SourceEntry>)
    decreases |rs|
  {
    if rs == [] then map[] else AddToGroup(Group(rs[..|rs| - 1]), rs[|rs| - 1])
  }

  /** The listing never has more sources than there are records. */
  lemma {:induction false} GroupSize(rs: seq<Record>)
    ensures |Group(rs)| <= |rs|
    decreases |rs|
  {
    if rs != [] {
      var init, last := rs[..|rs| - 1], rs[|rs| - 1];
      GroupSize(init);
      AddToGroupStep(Group(init), last);
      assert Group(rs).Keys == Group(init).Keys + {last.metadata.source};
    }
  }

  /** The body of `list_documents`. */
  method ListDocuments(store: VectorStore) returns (documents: map<string, SourceEntry>)
    ensures documents == Group(store.records)
  {
    var results := store.records;
    documents := map[];
    for k := 0 to |results|
      invariant documents == Group(results[..k])
    {
      var r := results[k];
      var source := r.metadata.source;
      if source !in documents {
        documents := documents[source := SourceEntry([], r.metadata.lastUpdated)];
      }
      documents := documents[source := documents[source].(chunks := documents[source].chunks + [RefOf(r)])];
      assert results[..k + 1][..k] == results[..k];
    }
    assert results[..|results|] == results;
  }

  /** The sources present in some records. */
  ghost function Sources(rs: seq<Record>): set<string> {
    set i | 0 <= i < |rs| :: rs[i].metadata.source
  }

  /** The listing has one entry per source present in the collection, and
      none for an empty collection. */
  lemma {:induction false} GroupKeys(rs: seq<Record>)
    ensures Group(rs).Keys == Sources(rs)
    decreases |rs|
  {
    if rs != [] {
      var init := rs[..|rs| - 1];
      GroupKeys(init);
      assert rs == init + [rs[|rs| - 1]];
      assert Sources(rs) == Sources(init) + {rs[|rs| - 1].metadata.source} by {
        forall s | s in Sources(rs)
          ensures s in Sources(init) + {rs[|rs| - 1].metadata.source}
        {
          var i :| 0 <= i < |rs| && rs[i].metadata.source == s;
          if i < |init| {
            assert init[i] == rs[i];
          }
        }
        forall s | s in Sources(init)
          ensures s in Sources(rs)
        {
          var i :| 0 <= i < |init| && init[i].metadata.source == s;
          assert rs[i] == init[i];
        }
      }
    }
  }

  /** Each source's entry lists exactly that source's records, in collection
      order, and carries the time stamp of the first of them. */
  lemma {:induction false} GroupEntries(rs: seq<Record>, s: string)
    requires s in Group(rs)
    ensures var mine := Filter(rs, SourceIs(s), true);
      && Group(rs)[s].chunks == Refs(mine)
      && mine != []
      && Group(rs)[s].lastUpdated == mine[0].metadata.lastUpdated
    decreases |rs|
  {
    var init, last := rs[..|rs| - 1], rs[|rs| - 1];
    assert rs == init + [last];
    FilterSnoc(init, last, SourceIs(s), true);
    var before := Filter(init, SourceIs(s), true);
    if s in Group(init) {
      GroupEntries(init, s);
      if last.metadata.source == s {
        assert Refs(before + [last]) == Refs(before) + [RefOf(last)];
      }
    } else {
      assert last.metadata.source == s;
      GroupKeys(init);
      assert forall i :: 0 <= i < |init| ==> init[i].metadata.source in Sources(init);
      DeleteUnknownSource(init, s);
      assert Filter(rs, SourceIs(s), true) == [last];
    }
  }

  /** The sources in the order they first appear: the order of the keys of
      the listing. */
  function SourceOrder(rs: seq<Record>): (order: seq<string>)
    decreases |rs|
  {
    if rs == [] then []
    else
      var before := SourceOrder(rs[..|rs| - 1]);
      var s := rs[|rs| - 1].metadata.source;
      if s in before then before else before + [s]
  }

  lemma {:induction false} SourceOrderIsKeys(rs: seq<Record>)
    ensures forall s :: s in SourceOrder(rs) <==> s in Group(rs)
    ensures forall i, j :: 0 <= i < j < |SourceOrder(rs)| ==> SourceOrder(rs)[i] != SourceOrder(rs)[j]
    decreases |rs|
  {
    if rs != [] {
      SourceOrderIsKeys(rs[..|rs| - 1]);
    }
  }

  /** The number of chunks listed under the given sources (a source with
      no entry counts none). */
  function Total(g: map<string, SourceEntry>, order: seq<string>): nat {
    if order == [] then 0
    else (if order[0] in g then |g[order[0]].chunks| else 0) + Total(g, order[1..])
  }

  lemma {:induction false} TotalSnoc(g: map<string, SourceEntry>, order: seq<string>, s: string)
    requires s in g
    ensures Total(g, order + [s]) == Total(g, order) + |g[s].chunks|
    decreases |order|
  {
    if order != [] {
      assert (order + [s])[1..] == order[1..] + [s];
      TotalSnoc(g, order[1..], s);
    }
  }

  /** Changing the entry of a source that is not counted changes nothing. */
  lemma {:induction false} TotalElsewhere(g: map<string, SourceEntry>, order: seq<string>, s: string, e: SourceEntry)
    requires s !in order
    ensures Total(g[s := e], order) == Total(g, order)
    decreases |order|
  {
    if order != [] {
      TotalElsewhere(g, order[1..], s, e);
    }
  }

  /** One more chunk under a source counted once adds one to the total. */
  lemma {:induction false} TotalBump(g: map<string, SourceEntry>, order: seq<string>, s: string, e: SourceEntry)
    requires forall i, j :: 0 <= i < j < |order| ==> order[i] != order[j]
    requires s in order && s in g && |e.chunks| == |g[s].chunks| + 1
    ensures Total(g[s := e], order) == Total(g, order) + 1
    decreases |order|
  {
    var rest := order[1..];
    if order[0] == s {
      assert s !in rest by {
        forall j | 0 <= j < |rest|
          ensures rest[j] != s
        {
          assert rest[j] == order[j + 1];
        }
      }
      TotalElsewhere(g, rest, s, e);
    } else {
      assert forall i, j :: 0 <= i < j < |rest| ==> rest[i] == order[i + 1] && rest[j] == order[j + 1];
      TotalBump(g, rest, s, e);
    }
  }

  /** Every record is listed exactly once: the chunks of all sources add up
      to the number of records. */
  lemma {:induction false} GroupTotal(rs: seq<Record>)
    ensures Total(Group(rs), SourceOrder(rs)) == |rs|
    decreases |rs|
  {
    SourceOrderIsKeys(rs);
    if rs != [] {
      var init, last := rs[..|rs| - 1], rs[|rs| - 1];
      var g0, o0 := Group(init), SourceOrder(init);
      var s := last.metadata.source;
      GroupTotal(init);
      SourceOrderIsKeys(init);
      var g1 := if s in g0 then g0 else g0[s := SourceEntry([], last.metadata.lastUpdated)];
      var e := g1[s].(chunks := g1[s].chunks + [RefOf(last)]);
      assert Group(rs) == g1[s := e];
      if s in g0 {
        TotalBump(g0, o0, s, e);
      } else {
        assert s !in o0 && SourceOrder(rs) == o0 + [s] && |e.chunks| == 1;
        assert Group(rs) == g0[s := e];
        TotalElsewhere(g0, o0, s, e);
        TotalSnoc(g0[s := e], o0, s);
      }
    }
  }

  /** One delete request per id, in order. */
  ghost function SingleRequests(rs: seq<Record>): seq<seq<string>> {
    seq(|rs|, i requires 0 <= i < |rs| => [rs[i].id])
  }

  lemma SingleRequestsSnoc(rs: seq<Record>, x: Record)
    ensures SingleRequests(rs + [x]) == SingleRequests(rs) + [[x.id]]
  {
    assert forall i :: 0 <= i < |rs| ==> (rs + [x])[i] == rs[i];
  }

  /** The body of `delete_document`: every record of the source is deleted
      with its own request, and the deletions are counted. */
  method DeleteSourceDocuments(store: VectorStore, source: string) returns (deleted: nat)
    requires store.Valid()
    modifies store
    ensures store.records == Filter(old(store.records), SourceIs(source), false)
    ensures deleted == |Filter(old(store.records), SourceIs(source), true)|
    ensures store.deleteRequests ==
      old(store.deleteRequests) + SingleRequests(Filter(old(store.records), SourceIs(source), true))
    ensures store.Valid()
  {
    var results := store.records;
    deleted := 0;
    for k := 0 to |results|
      invariant store.records == Filter(results[..k], SourceIs(source), false) + results[k..]
      invariant deleted == |Filter(results[..k], SourceIs(source), true)|
      invariant store.deleteRequests ==
        old(store.deleteRequests) + SingleRequests(Filter(results[..k], SourceIs(source), true))
    {
      var r := results[k];
      if r.metadata.source == source {
        KeptIdsDiffer(results, source, k);
        DeleteStepMatch(results, source, k);
        SingleRequestsSnoc(Filter(results[..k], SourceIs(source), true), r);
        store.DeleteDocument(r.id);
        deleted := deleted + 1;
      } else {
        DeleteStepOther(results, source, k);
      }
    }
    assert results[..|results|] == results;
    FilterKeepsDistinct(results, SourceIs(source), false);
  }

  /** One pass of the deletion loop for a record of the source whose id no
      other record shares: deleting it moves it from the remaining records to
      the deleted ones. */
  lemma DeleteStepMatch(rs: seq<Record>, source: string, k: nat)
    requires k < |rs| && rs[k].metadata.source == source
    requires var kept := Filter(rs[..k], SourceIs(source), false);
      forall i :: 0 <= i < |kept| ==> kept[i].id != rs[k].id
    requires var rest := rs[k + 1..];
      forall i :: 0 <= i < |rest| ==> rest[i].id != rs[k].id
    ensures DropIds(Filter(rs[..k], SourceIs(source), false) + rs[k..], [rs[k].id]) ==
      Filter(rs[..k + 1], SourceIs(source), false) + rs[k + 1..]
    ensures Filter(rs[..k + 1], SourceIs(source), true) == Filter(rs[..k], SourceIs(source), true) + [rs[k]]
    ensures Filter(rs[..k + 1], SourceIs(source), false) == Filter(rs[..k], SourceIs(source), false)
  {
    var r := rs[k];
    var kept := Filter(rs[..k], SourceIs(source), false);
    assert rs[..k + 1] == rs[..k] + [r];
    FilterSnoc(rs[..k], r, SourceIs(source), false);
    FilterSnoc(rs[..k], r, SourceIs(source), true);
    DropOne(kept, r, rs[k + 1..]);
    assert kept + rs[k..] == kept + [r] + rs[k + 1..] by {
      assert rs[k..] == [r] + rs[k + 1..];
    }
  }

  /** One pass of the deletion loop for a record of another source: it stays
      where it is. */
  lemma DeleteStepOther(rs: seq<Record>, source: string, k: nat)
    requires k < |rs| && rs[k].metadata.source != source
    ensures Filter(rs[..k], SourceIs(source), false) + rs[k..] ==
      Filter(rs[..k + 1], SourceIs(source), false) + rs[k + 1..]
    ensures Filter(rs[..k + 1], SourceIs(source), true) == Filter(rs[..k], SourceIs(source), true)
    ensures Filter(rs[..k + 1], SourceIs(source), false) == Filter(rs[..k], SourceIs(source), false) + [rs[k]]
  {
    var r := rs[k];
    var kept := Filter(rs[..k], SourceIs(source), false);
    assert rs[..k + 1] == rs[..k] + [r];
    FilterSnoc(rs[..k], r, SourceIs(source), false);
    FilterSnoc(rs[..k], r, SourceIs(source), true);
    assert rs[k..] == [r] + rs[k + 1..];
    assert kept + [r] + rs[k + 1..] == kept + rs[k..];
  }

  /** With distinct ids, record `k` shares its id with no record kept
      before it and no record after it. */
  lemma KeptIdsDiffer(rs: seq<Record>, source: string, k: nat)
    requires DistinctIds(rs) && k < |rs|
    ensures var kept := Filter(rs[..k], SourceIs(source), false);
      forall i :: 0 <= i < |kept| ==> kept[i].id != rs[k].id
    ensures var rest := rs[k + 1..];
      forall i :: 0 <= i < |rest| ==> rest[i].id != rs[k].id
  {
    var kept := Filter(rs[..k], SourceIs(source), false);
    FilterSpec(rs[..k], SourceIs(source), false);
    forall i | 0 <= i < |kept|
      ensures kept[i].id != rs[k].id
    {
      assert kept[i] in rs[..k];
      var j :| 0 <= j < k && rs[..k][j] == kept[i];
      assert rs[j] == kept[i];
    }
    var rest := rs[k + 1..];
    forall i | 0 <= i < |rest|
      ensures rest[i].id != rs[k].id
    {
      assert rest[i] == rs[k + 1 + i];
    }
  }

  /** After deleting a source, no record of it remains, every record of
      another source is still there, and the count plus what remains is what
      there was. */
  lemma DeleteSourceOutcome(rs: seq<Record>, source: string)
    ensures forall x :: x in Filter(rs, SourceIs(source), false) ==> x.metadata.source != source
    ensures forall x :: x in rs && x.metadata.source != source ==> x in Filter(rs, SourceIs(source), false)
    ensures |Filter(rs, SourceIs(source), true)| + |Filter(rs, SourceIs(source), false)| == |rs|
  {
    FilterSpec(rs, SourceIs(source), false);
    FilterPartition(rs, SourceIs(source));
  }

  /** Deleting a source nothing belongs to deletes nothing and leaves the
      collection as it was; a count of zero means exactly that. */
  lemma DeleteUnknownSource(rs: seq<Record>, source: string)
    ensures (forall i :: 0 <= i < |rs| ==> rs[i].metadata.source != source) <==>
      |Filter(rs, SourceIs(source), true)| == 0
    ensures |Filter(rs, SourceIs(source), true)| == 0 ==> Filter(rs, SourceIs(source), false) == rs
  {
    FilterSpec(rs, SourceIs(source), true);
    if forall i :: 0 <= i < |rs| ==> rs[i].metadata.source != source {
      FilterKeepsAll(rs, SourceIs(source), false);
      FilterPartition(rs, SourceIs(source));
    } else {
      var i :| 0 <= i < |rs| && rs[i].metadata.source == source;
      assert rs[i] in Filter(rs, SourceIs(source), true);
    }
  }
}
