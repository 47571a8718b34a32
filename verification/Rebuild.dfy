/**
 An index maintained by deltas against an index built from scratch: after any sequence of deltas,
 accepted or rejected, the two are the same in every field.
 */
module Rebuild {
  import opened Order
  import opened Graph
  import opened Repeats
  import opened Relation
  import opened Index

  /** The facts of an index; everything else follows from them. */
  datatype Facts = Facts(
    definitions: map<SymbolId, Symbol>,
    edges: map<EdgeKey, Edge>,
    snapshot: Option<SnapshotToken>)

  function FactsOf(index: GraphIndex): Facts
    reads index
  {
    Facts(index.definitions, index.edges, index.snapshot)
  }

  ghost predicate IsAccepted(f: Facts, delta: ScopeGraphDelta) {
    && LineageAccepted(f.snapshot, delta)
    && SymbolsAccepted(f.definitions, delta) && EdgesAccepted(f.edges, delta)
  }

  /** An accepted delta removes and then upserts; a rejected one changes nothing. */
  ghost function FactsAfter(f: Facts, deltas: seq<ScopeGraphDelta>): Facts {
    if deltas == [] then f else
      var before := FactsAfter(f, deltas[..|deltas| - 1]);
      var delta := deltas[|deltas| - 1];
      if !IsAccepted(before, delta) then before else
        Facts(WithSymbols(Without(before.definitions, delta.removedSymbols), delta.upsertedSymbols),
              WithEdges(Without(before.edges, delta.removedEdges), delta.upsertedEdges),
              Some(delta.snapshot))
  }

  lemma NoDeltas(f: Facts)
    ensures FactsAfter(f, []) == f
  {
  }

  lemma NextDelta(f: Facts, deltas: seq<ScopeGraphDelta>, i: nat)
    requires i < |deltas|
    ensures var before, delta := FactsAfter(f, deltas[..i]), deltas[i];
            FactsAfter(f, deltas[..i + 1]) ==
            if !IsAccepted(before, delta) then before else
              Facts(WithSymbols(Without(before.definitions, delta.removedSymbols), delta.upsertedSymbols),
                    WithEdges(Without(before.edges, delta.removedEdges), delta.upsertedEdges),
                    Some(delta.snapshot))
  {
    assert deltas[..i + 1][..i] == deltas[..i];
  }

  /** Apply the deltas in turn, whether or not each is accepted. */
  method ApplyAll(index: GraphIndex, deltas: seq<ScopeGraphDelta>) returns (outcomes: seq<Outcome>)
    requires index.Valid()
    modifies index
    ensures index.Valid() && FactsOf(index) == FactsAfter(old(FactsOf(index)), deltas)
    ensures |outcomes| == |deltas|
    ensures forall i :: 0 <= i < |deltas| ==>
              (outcomes[i] == Done <==> IsAccepted(FactsAfter(old(FactsOf(index)), deltas[..i]), deltas[i]))
  {
    hide GraphIndex.Valid, LineageAccepted, SymbolsAccepted, EdgesAccepted, WithSymbols, WithEdges, Without, Rejection,
         FactsAfter;
    outcomes := [];
    NoDeltas(FactsOf(index));
    for i := 0 to |deltas|
      invariant index.Valid() && FactsOf(index) == FactsAfter(old(FactsOf(index)), deltas[..i])
      invariant |outcomes| == i
      invariant forall j :: 0 <= j < i ==>
                  (outcomes[j] == Done <==> IsAccepted(FactsAfter(old(FactsOf(index)), deltas[..j]), deltas[j]))
    {
      NextDelta(old(FactsOf(index)), deltas, i);
      var outcome := index.ApplyScopeDelta(deltas[i]);
      outcomes := outcomes + [outcome];
    }
    assert deltas[..|deltas|] == deltas;
  }

  /**
   Each delta of a sequence changes the facts as it says, upserts and removals by name, or not at all
   when it is rejected.
   */
  lemma EachDeltaMeans(f: Facts, deltas: seq<ScopeGraphDelta>, i: nat)
    requires i < |deltas|
    ensures var before, after, delta := FactsAfter(f, deltas[..i]), FactsAfter(f, deltas[..i + 1]), deltas[i];
            if IsAccepted(before, delta)
            then && SymbolsUpdated(before.definitions, after.definitions, delta)
                 && EdgesUpdated(before.edges, after.edges, delta) && after.snapshot == Some(delta.snapshot)
            else after == before
  {
    hide FactsAfter, WithSymbols, WithEdges, Without, SymbolsUpdated, EdgesUpdated, SymbolsAccepted, EdgesAccepted;
    NextDelta(f, deltas, i);
    var before := FactsAfter(f, deltas[..i]);
    if IsAccepted(before, deltas[i]) {
      AcceptedSymbolsUpdated(before.definitions, deltas[i]);
      AcceptedEdgesUpdated(before.edges, deltas[i]);
    }
  }

  // ----- The graph of some facts

  lemma GraphGivesDefinitions(graph: CodeGraph, definitions: map<SymbolId, Symbol>, edges: map<EdgeKey, Edge>)
    requires WellNamed(definitions) && IsGraphOf(graph, definitions, edges)
    ensures WithSymbols(map[], graph.symbols) == definitions
  {
    hide WithSymbols, Edge.Key, KeysOf;
    WithSymbolsMeans(map[], graph.symbols);
    WithSymbolsKeys(graph.symbols);
    var built := WithSymbols(map[], graph.symbols);
    forall id | id in built ensures id in definitions && built[id] == definitions[id] {
      var i :| 0 <= i < |graph.symbols| && IdsOf(graph.symbols)[i] == id;
      assert graph.symbols[i] in graph.symbols;
    }
    forall id | id in definitions ensures id in built {
      assert definitions[id] in graph.symbols;
    }
  }

  lemma GraphGivesEdges(graph: CodeGraph, definitions: map<SymbolId, Symbol>, edges: map<EdgeKey, Edge>)
    requires WellKeyed(edges) && IsGraphOf(graph, definitions, edges)
    ensures WithEdges(map[], graph.edges) == edges
  {
    hide WithEdges, Edge.Key, IdsOf;
    WithEdgesMeans(map[], graph.edges);
    WithEdgesKeys(graph.edges);
    var built := WithEdges(map[], graph.edges);
    forall key | key in built ensures key in edges && built[key] == edges[key] {
      var i :| 0 <= i < |graph.edges| && KeysOf(graph.edges)[i] == key;
      assert graph.edges[i] in graph.edges;
    }
    forall key | key in edges ensures key in built {
      assert edges[key] in graph.edges;
    }
  }

  /** The values of a map, listed by key. */
  function Listed<K, V>(m: map<K, V>, keys: seq<K>): (values: seq<V>)
    requires forall k :: k in keys ==> k in m
    ensures |values| == |keys| && forall i :: 0 <= i < |keys| ==> keys[i] in m && values[i] == m[keys[i]]
  {
    seq(|keys|, i requires 0 <= i < |keys| => assert keys[i] in keys; m[keys[i]])
  }

  /** The graph that lists the facts in the order of their identities and keys. */
  function GraphOf(definitions: map<SymbolId, Symbol>, edges: map<EdgeKey, Edge>): CodeGraph {
    KeysTotallyOrdered();
    CodeGraph(Listed(definitions, SortedIds(definitions.Keys)), Listed(edges, SortedSeq(edges.Keys, CompareKey)))
  }

  lemma ListedValue<K, V>(m: map<K, V>, keys: seq<K>, k: K)
    requires (forall j :: j in keys ==> j in m) && k in keys
    ensures m[k] in Listed(m, keys)
  {
    var i :| 0 <= i < |keys| && keys[i] == k;
    assert Listed(m, keys)[i] == m[k];
  }

  lemma SortedHasNoRepeats<K(!new)>(keys: seq<K>, cmp: (K, K) -> Ordering)
    requires TotalOrder(cmp) && Sorted(keys, cmp)
    ensures NoRepeats(keys)
  {
  }

  lemma GraphOfListsSymbols(definitions: map<SymbolId, Symbol>, edges: map<EdgeKey, Edge>)
    requires WellNamed(definitions)
    ensures var symbols := GraphOf(definitions, edges).symbols;
            && NoRepeats(IdsOf(symbols))
            && forall s: Symbol :: s in symbols <==> s.id in definitions && definitions[s.id] == s
  {
    hide CompareId, CompareKey, TotalOrder, Listed;
    IdsTotallyOrdered();
    SortedIdsOrdered(definitions.Keys);
    var ids := SortedIds(definitions.Keys);
    SortedHasNoRepeats(ids, CompareId);
    assert IdsOf(Listed(definitions, ids)) == ids;
    forall s: Symbol | s.id in definitions && definitions[s.id] == s ensures s in Listed(definitions, ids) {
      ListedValue(definitions, ids, s.id);
    }
  }

  lemma GraphOfListsEdges(definitions: map<SymbolId, Symbol>, edges: map<EdgeKey, Edge>)
    requires WellKeyed(edges)
    ensures var listed := GraphOf(definitions, edges).edges;
            && NoRepeats(KeysOf(listed))
            && forall e: Edge :: e in listed <==> e.Key() in edges && edges[e.Key()] == e
  {
    hide CompareId, CompareKey, Edge.Key, TotalOrder, Listed, SortedSeq;
    KeysTotallyOrdered();
    var keys := SortedSeq(edges.Keys, CompareKey);
    SortedHasNoRepeats(keys, CompareKey);
    assert KeysOf(Listed(edges, keys)) == keys;
    forall e: Edge | e.Key() in edges && edges[e.Key()] == e ensures e in Listed(edges, keys) {
      ListedValue(edges, keys, e.Key());
    }
  }

  // ----- Deltas and rebuilds

  /** The same index in every field. */
  ghost predicate SameIndex(a: GraphIndex, b: GraphIndex)
    reads a, b
  {
    && a.scip == b.scip && a.definitions == b.definitions && a.edges == b.edges && a.snapshot == b.snapshot
    && a.knownIds == b.knownIds && a.endpointRefcounts == b.endpointRefcounts
    && a.definitionsByName == b.definitionsByName && a.idsByScip == b.idsByScip
    && a.definitionsByScip == b.definitionsByScip && a.definitionsByFile == b.definitionsByFile
    && a.outgoing == b.outgoing && a.incoming == b.incoming
  }

  lemma FactsWellFormed(index: GraphIndex, graph: CodeGraph)
    requires index.Valid() && IsGraphOf(graph, index.definitions, index.edges)
    ensures WellNamed(index.definitions) && WellKeyed(index.edges)
    ensures NoRepeats(IdsOf(graph.symbols)) && NoRepeats(KeysOf(graph.edges))
  {
  }

  /** Building any graph of an index's facts, in whatever order it lists them, gives the index again. */
  method BuildAgain(index: GraphIndex, graph: CodeGraph) returns (rebuilt: GraphIndex)
    requires index.Valid() && IsGraphOf(graph, index.definitions, index.edges)
    ensures fresh(rebuilt) && SameIndex(rebuilt, index)
  {
    hide IsGraphOf, WellNamed, WellKeyed, WithSymbols, WithEdges;
    FactsWellFormed(index, graph);
    GraphGivesDefinitions(graph, index.definitions, index.edges);
    GraphGivesEdges(graph, index.definitions, index.edges);
    var built := Build(graph, index.scip, index.snapshot);
    rebuilt := built.value;
    SameFactsSameIndex(rebuilt, index);
  }

  lemma GraphOfIndex(index: GraphIndex)
    requires index.Valid()
    ensures IsGraphOf(GraphOf(index.definitions, index.edges), index.definitions, index.edges)
  {
    hide GraphOf, GraphIndex.KnownValid, WellNamed, WellKeyed;
    GraphOfListsSymbols(index.definitions, index.edges);
    GraphOfListsEdges(index.definitions, index.edges);
  }

  /** After any sequence of deltas the index is the one a rebuild of its facts gives. */
  method ApplyAndRebuild(index: GraphIndex, deltas: seq<ScopeGraphDelta>)
    returns (outcomes: seq<Outcome>, rebuilt: GraphIndex)
    requires index.Valid()
    modifies index
    ensures index.Valid() && FactsOf(index) == FactsAfter(old(FactsOf(index)), deltas)
    ensures fresh(rebuilt) && SameIndex(rebuilt, index)
  {
    hide FactsAfter, IsAccepted, GraphIndex.Valid, IsGraphOf, GraphOf, SameIndex;
    outcomes := ApplyAll(index, deltas);
    var graph := GraphOf(index.definitions, index.edges);
    GraphOfIndex(index);
    rebuilt := BuildAgain(index, graph);
  }
}
