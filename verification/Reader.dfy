/**
 The in-memory index as a graph reader: its edge pages, and the impact query over them.
 */
module Reader {
  import opened Order
  import opened Graph
  import opened Paging
  import opened Relation
  import opened Index
  import opened Reads
  import opened Impact

  /** All stored edges the filter lets through, in key order. */
  function EdgesList(edges: map<EdgeKey, Edge>, filter: EdgeFilter): seq<(EdgeKey, Edge)> {
    KeysTotallyOrdered();
    Select(edges, SortedSeq(edges.Keys, CompareKey), filter)
  }

  /** Those whose occurrence lies in one file. */
  function InFile(values: seq<(EdgeKey, Edge)>, file: string): seq<(EdgeKey, Edge)> {
    if values == [] then [] else
    (if values[0].1.occ.file == file then [values[0]] else []) + InFile(values[1..], file)
  }

  function IncomingPage(edges: map<EdgeKey, Edge>, incoming: map<SymbolId, seq<EdgeKey>>, q: Request)
    : GraphPage<Edge, EdgeKey>
    requires q.limit > 0
  {
    PageBy(Adjacent(edges, incoming, q.id, q.filter), q.after, CompareKey, q.limit)
  }

  lemma {:induction false} InFileContains(values: seq<(EdgeKey, Edge)>, file: string, v: (EdgeKey, Edge))
    ensures v in InFile(values, file) <==> v in values && v.1.occ.file == file
  {
    if values == [] {
    } else {
      InFileContains(values[1..], file, v);
      assert values == [values[0]] + values[1..];
    }
  }

  lemma {:induction false} InFileSorted(values: seq<(EdgeKey, Edge)>, file: string)
    requires SortedCursors(values, CompareKey)
    ensures SortedCursors(InFile(values, file), CompareKey)
  {
    hide CompareKey;
    if values == [] {
    } else {
      InFileSorted(values[1..], file);
      var rest := InFile(values[1..], file);
      forall j | 0 <= j < |rest| ensures CompareKey(values[0].0, rest[j].0) == Less {
        InFileContains(values[1..], file, rest[j]);
        var i :| 0 <= i < |values[1..]| && values[1..][i] == rest[j];
        assert values[i + 1] == rest[j];
      }
    }
  }

  lemma EdgesListSpec(edges: map<EdgeKey, Edge>, filter: EdgeFilter)
    requires WellKeyed(edges)
    ensures SortedCursors(EdgesList(edges, filter), CompareKey)
    ensures forall e: Edge :: (e.Key(), e) in EdgesList(edges, filter) <==> e in edges.Values && filter.AsksFor(e)
  {
    hide CompareKey, EdgeFilter.Matches, EdgeFilter.AsksFor;
    filter.MatchesWhatIsAskedFor();
    KeysTotallyOrdered();
    var keys := SortedSeq(edges.Keys, CompareKey);
    SelectSorted(edges, keys, filter);
    assert EdgesList(edges, filter) == Select(edges, keys, filter);
    forall e: Edge ensures (e.Key(), e) in EdgesList(edges, filter) <==> e in edges.Values && filter.AsksFor(e) {
      SelectContains(edges, keys, filter, (e.Key(), e));
      if e in edges.Values {
        var k :| k in edges && edges[k] == e;
      }
    }
  }

  /** Everything met when the pages of a sorted list are read from the start. */
  ghost function ReadThrough(values: seq<(EdgeKey, Edge)>, limits: nat -> nat): seq<Edge>
    requires SortedCursors(values, CompareKey) && forall j :: limits(j) > 0
  {
    KeysTotallyOrdered();
    Follow(values, None, CompareKey, limits, 0)
  }

  lemma ReadThroughIsList(values: seq<(EdgeKey, Edge)>, limits: nat -> nat)
    requires SortedCursors(values, CompareKey) && forall j :: limits(j) > 0
    ensures ReadThrough(values, limits) == Payloads(values)
  {
    hide CompareKey, Follow, After, SortedCursors;
    KeysTotallyOrdered();
    FollowYieldsSuffix(values, None, CompareKey, limits, 0);
    AfterNone(values, CompareKey);
  }

  /** The pages of one endpoint concatenate to its matching edges, each once, in key order. */
  lemma AdjacentPagesDeliver(edges: map<EdgeKey, Edge>, side: Endpoint, adjacency: map<SymbolId, seq<EdgeKey>>,
                             id: SymbolId, filter: EdgeFilter, limits: nat -> nat)
    requires WellKeyed(edges) && IsAdjacency(edges, side, adjacency) && forall j :: limits(j) > 0
    ensures SortedCursors(Adjacent(edges, adjacency, id, filter), CompareKey)
    ensures var met := ReadThrough(Adjacent(edges, adjacency, id, filter), limits);
            && (forall e: Edge :: e in met <==> e in edges.Values && End(e, side) == id && filter.AsksFor(e))
            && (forall i, j :: 0 <= i < j < |met| ==> CompareKey(met[i].Key(), met[j].Key()) == Less)
  {
    hide CompareKey, IsAdjacency, MatchingAt, Adjacent, Edge.Key, EdgeFilter.AsksFor;
    AdjacentIsMatching(edges, side, adjacency, id, filter);
    MatchingAtSpec(edges, side, id, filter);
    var list := MatchingAt(edges, side, id, filter);
    ReadThroughIsList(list, limits);
    forall i | 0 <= i < |list| ensures list[i].0 == list[i].1.Key() {
      assert list[i] in list;
    }
    forall e: Edge
      ensures e in Payloads(list) <==> e in edges.Values && End(e, side) == id && filter.AsksFor(e)
    {
      if (e.Key(), e) in list {
        var i :| 0 <= i < |list| && list[i] == (e.Key(), e);
        assert Payloads(list)[i] == e;
      }
      if e in Payloads(list) {
        var i :| 0 <= i < |list| && list[i].1 == e;
        assert list[i] == (e.Key(), e);
      }
    }
  }

  lemma ListedUnderKey(edges: map<EdgeKey, Edge>, file: string, filter: EdgeFilter, v: (EdgeKey, Edge))
    requires WellKeyed(edges) && v in InFile(EdgesList(edges, filter), file)
    ensures v.0 == v.1.Key()
  {
    hide CompareKey;
    KeysTotallyOrdered();
    InFileContains(EdgesList(edges, filter), file, v);
    SelectContains(edges, SortedSeq(edges.Keys, CompareKey), filter, v);
  }

  /** The pages of one file deliver each matching edge of that file once, in key order. */
  lemma FilePagesDeliver(edges: map<EdgeKey, Edge>, file: string, filter: EdgeFilter, limits: nat -> nat)
    requires WellKeyed(edges) && forall j :: limits(j) > 0
    ensures SortedCursors(InFile(EdgesList(edges, filter), file), CompareKey)
    ensures var met := ReadThrough(InFile(EdgesList(edges, filter), file), limits);
            && (forall e: Edge :: e in met <==> e in edges.Values && filter.AsksFor(e) && e.occ.file == file)
            && (forall i, j :: 0 <= i < j < |met| ==> CompareKey(met[i].Key(), met[j].Key()) == Less)
  {
    hide CompareKey, EdgesList, Edge.Key, EdgeFilter.AsksFor;
    EdgesListSpec(edges, filter);
    InFileSorted(EdgesList(edges, filter), file);
    var list := InFile(EdgesList(edges, filter), file);
    ReadThroughIsList(list, limits);
    forall i | 0 <= i < |list| ensures list[i].0 == list[i].1.Key() {
      ListedUnderKey(edges, file, filter, list[i]);
    }
    forall e: Edge
      ensures e in Payloads(list) <==> e in edges.Values && filter.AsksFor(e) && e.occ.file == file
    {
      InFileContains(EdgesList(edges, filter), file, (e.Key(), e));
      if (e.Key(), e) in list {
        var i :| 0 <= i < |list| && list[i] == (e.Key(), e);
        assert Payloads(list)[i] == e;
      }
      if e in Payloads(list) {
        var i :| 0 <= i < |list| && list[i].1 == e;
        assert list[i] in list;
        ListedUnderKey(edges, file, filter, list[i]);
        assert list[i] == (e.Key(), e);
      }
    }
  }

  /** The in-memory reader keeps the paging contract. */
  lemma IndexObeys(edges: map<EdgeKey, Edge>, incoming: map<SymbolId, seq<EdgeKey>>, q: Request)
    requires IsAdjacency(edges, To, incoming) && q.limit > 0
    ensures IsPage(MatchingAt(edges, To, q.id, q.filter), q.after, CompareKey, q.limit,
                   IncomingPage(edges, incoming, q))
  {
    hide CompareKey;
    AdjacentIsMatching(edges, To, incoming, q.id, q.filter);
    PageByKeepsContract(MatchingAt(edges, To, q.id, q.filter), q.after, CompareKey, q.limit);
  }

  /** The infallible query over a valid index gives the mathematical answer. */
  method ImpactInMemory(index: GraphIndex, seed: SymbolId, options: ImpactOptions) returns (result: ImpactResult)
    requires index.Valid()
    ensures WellKeyed(index.edges) && result == Answer(index.edges, seed, options)
  {
    hide CompareKey, IsPage, Answer, Usable;
    var edges, incoming := index.edges, index.incoming;
    // A traversal never asks for an empty page.
    var reader: Reads.Reader<()> := (n: nat, q: Request) =>
      Ok(if q.limit > 0 then IncomingPage(edges, incoming, q) else GraphPage([], None));
    assert Obeys(reader, edges) by {
      forall n: nat, q: Request | q.limit > 0
        ensures IsPage(MatchingAt(edges, To, q.id, q.filter), q.after, CompareKey, q.limit, reader(n, q).value)
      {
        IndexObeys(edges, incoming, q);
      }
    }
    var r;
    ghost var trace;
    r, trace := Impact.Impact(reader, seed, options, edges);
    result := r.value;
  }
}
