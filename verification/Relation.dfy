/**
 Filtered adjacency: the edges at one endpoint that satisfy a filter, in stable key order.
 */
module Relation {
  import opened Order
  import opened Graph
  import opened Buckets

  datatype Endpoint = From | To

  function End(e: Edge, side: Endpoint): SymbolId {
    if side.From? then e.from else e.to
  }

  /** Every edge is stored under its own key. */
  ghost predicate WellKeyed(edges: map<EdgeKey, Edge>) {
    forall k :: k in edges ==> edges[k].Key() == k
  }

  /** The keys of the edges whose `side` is `id`. */
  function KeysAt(edges: map<EdgeKey, Edge>, side: Endpoint, id: SymbolId): set<EdgeKey> {
    set k | k in edges && End(edges[k], side) == id
  }

  /** The endpoint of every stored edge. */
  function EndAt(edges: map<EdgeKey, Edge>, side: Endpoint): map<EdgeKey, SymbolId> {
    map k | k in edges :: End(edges[k], side)
  }

  /** Each adjacency list holds exactly the keys of the edges at its endpoint, in key order. */
  ghost predicate IsAdjacency(edges: map<EdgeKey, Edge>, side: Endpoint, adjacency: map<SymbolId, seq<EdgeKey>>) {
    IsBuckets(adjacency, EndAt(edges, side), CompareKey)
  }

  /** The stored edges of the listed keys that the filter lets through, with their keys. */
  function Select(edges: map<EdgeKey, Edge>, keys: seq<EdgeKey>, filter: EdgeFilter): seq<(EdgeKey, Edge)> {
    if keys == [] then [] else
    (if keys[0] in edges && filter.Matches(edges[keys[0]]) then [(keys[0], edges[keys[0]])] else [])
    + Select(edges, keys[1..], filter)
  }

  /** Unknown identities have no edges. */
  function Adjacent(edges: map<EdgeKey, Edge>, adjacency: map<SymbolId, seq<EdgeKey>>, id: SymbolId,
                    filter: EdgeFilter): seq<(EdgeKey, Edge)>
  {
    if id in adjacency then Select(edges, adjacency[id], filter) else []
  }

  /** The same list defined from the edges alone: all matching edges at `id`, in key order. */
  ghost function MatchingAt(edges: map<EdgeKey, Edge>, side: Endpoint, id: SymbolId, filter: EdgeFilter)
    : seq<(EdgeKey, Edge)>
  {
    KeysTotallyOrdered();
    Select(edges, SortedSeq(KeysAt(edges, side, id), CompareKey), filter)
  }

  lemma {:induction false} SelectContains(edges: map<EdgeKey, Edge>, keys: seq<EdgeKey>, filter: EdgeFilter,
                                          v: (EdgeKey, Edge))
    ensures v in Select(edges, keys, filter) <==>
            v.0 in keys && v.0 in edges && v.1 == edges[v.0] && filter.Matches(edges[v.0])
  {
    if keys == [] {
    } else {
      SelectContains(edges, keys[1..], filter, v);
      assert v == (v.0, v.1);
      assert keys == [keys[0]] + keys[1..];
    }
  }

  lemma {:induction false} SelectSorted(edges: map<EdgeKey, Edge>, keys: seq<EdgeKey>, filter: EdgeFilter)
    requires Sorted(keys, CompareKey)
    ensures var s := Select(edges, keys, filter);
            forall i, j :: 0 <= i < j < |s| ==> CompareKey(s[i].0, s[j].0) == Less
  {
    hide CompareKey;
    if keys == [] {
    } else {
      SelectSorted(edges, keys[1..], filter);
      var rest := Select(edges, keys[1..], filter);
      forall j | 0 <= j < |rest| ensures CompareKey(keys[0], rest[j].0) == Less {
        SelectContains(edges, keys[1..], filter, rest[j]);
        var i :| 0 <= i < |keys[1..]| && keys[1..][i] == rest[j].0;
        assert keys[i + 1] == rest[j].0;
      }
    }
  }

  /** A matching edge is listed exactly at its endpoint, and the list is strictly sorted by key. */
  lemma MatchingAtSpec(edges: map<EdgeKey, Edge>, side: Endpoint, id: SymbolId, filter: EdgeFilter)
    requires WellKeyed(edges)
    ensures forall e: Edge :: (e.Key(), e) in MatchingAt(edges, side, id, filter) <==>
                        e in edges.Values && End(e, side) == id && filter.AsksFor(e)
    ensures forall v :: v in MatchingAt(edges, side, id, filter) ==> v.0 == v.1.Key()
    ensures var s := MatchingAt(edges, side, id, filter);
            forall i, j :: 0 <= i < j < |s| ==> CompareKey(s[i].0, s[j].0) == Less
  {
    hide CompareKey, EdgeFilter.Matches, EdgeFilter.AsksFor;
    filter.MatchesWhatIsAskedFor();
    KeysTotallyOrdered();
    var keys := SortedSeq(KeysAt(edges, side, id), CompareKey);
    SelectSorted(edges, keys, filter);
    assert MatchingAt(edges, side, id, filter) == Select(edges, keys, filter);
    forall v ensures v in MatchingAt(edges, side, id, filter) <==>
                     v.0 in keys && v.0 in edges && v.1 == edges[v.0] && filter.Matches(edges[v.0])
    {
      SelectContains(edges, keys, filter, v);
    }
    forall e: Edge ensures (e.Key(), e) in MatchingAt(edges, side, id, filter) <==>
                     e in edges.Values && End(e, side) == id && filter.AsksFor(e)
    {
      if e in edges.Values {
        var k :| k in edges && edges[k] == e;
      }
    }
  }

  lemma SelectNothing(edges: map<EdgeKey, Edge>, filter: EdgeFilter)
    ensures Select(edges, [], filter) == []
  {
  }

  /** Reading a valid adjacency map gives exactly the matching edges in key order. */
  lemma AdjacentIsMatching(edges: map<EdgeKey, Edge>, side: Endpoint, adjacency: map<SymbolId, seq<EdgeKey>>,
                           id: SymbolId, filter: EdgeFilter)
    requires IsAdjacency(edges, side, adjacency)
    ensures Adjacent(edges, adjacency, id, filter) == MatchingAt(edges, side, id, filter)
  {
    hide CompareKey, Select, TotalOrder, IsBuckets;
    KeysTotallyOrdered();
    BucketIs(adjacency, EndAt(edges, side), CompareKey, id, SortedSeq(KeysAt(edges, side, id), CompareKey));
    SelectNothing(edges, filter);
  }
}
