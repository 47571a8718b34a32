/**
 The in-memory graph index: built from a graph, or maintained by snapshot deltas. `Valid` says
 what every derived field must be; since the derived fields are determined by the definitions
 and the edges, an index maintained by deltas is the index a rebuild would give.
 */
module Index {
  import opened Order
  import opened Graph
  import opened Repeats
  import opened Buckets
  import opened Relation

  type SnapshotToken(==) = seq<nat>

  datatype QueryError =
    | DuplicateSymbolId(id: SymbolId)
    | DuplicateEdgeKey(key: EdgeKey)
    | ScopeDeltaRequiresTrackedIndex
    | SnapshotMismatch(expected: SnapshotToken, actual: SnapshotToken)
    | ScopeDeltaSnapshotDoesNotAdvance
    | MissingRemovedSymbol(id: SymbolId)
    | MissingRemovedEdge(key: EdgeKey)
    | DuplicateRemovedSymbol(id: SymbolId)
    | DuplicateUpsertedSymbol(id: SymbolId)
    | DuplicateRemovedEdge(key: EdgeKey)
    | DuplicateUpsertedEdge(key: EdgeKey)
    | IndexInvariant

  datatype Outcome = Done | Failed(error: QueryError)

  datatype ScopeGraphDelta = ScopeGraphDelta(
    baseSnapshot: SnapshotToken,
    snapshot: SnapshotToken,
    removedSymbols: seq<SymbolId>,
    upsertedSymbols: seq<Symbol>,
    removedEdges: seq<EdgeKey>,
    upsertedEdges: seq<Edge>)

  // ----- What the derived fields must be

  ghost predicate WellNamed(definitions: map<SymbolId, Symbol>) {
    forall id :: id in definitions ==> definitions[id].id == id
  }

  function NameAt(definitions: map<SymbolId, Symbol>): map<SymbolId, string> {
    map id | id in definitions :: definitions[id].name
  }

  function FileAt(definitions: map<SymbolId, Symbol>): map<SymbolId, string> {
    map id | id in definitions :: definitions[id].file
  }

  /** `scip` renders an identity for display; distinct identities may share a display. */
  function ScipAt(ids: set<SymbolId>, scip: SymbolId -> string): map<SymbolId, string> {
    map id | id in ids :: scip(id)
  }

  // ----- Endpoint reference counts

  /** How often `id` occurs as an endpoint; a self-edge counts twice. */
  ghost function Degree(edges: map<EdgeKey, Edge>, id: SymbolId): nat {
    |KeysAt(edges, From, id)| + |KeysAt(edges, To, id)|
  }

  ghost predicate AreRefcounts(counts: map<SymbolId, nat>, edges: map<EdgeKey, Edge>) {
    && (forall id :: id in counts <==> Degree(edges, id) > 0)
    && (forall id :: id in counts ==> counts[id] == Degree(edges, id))
  }

  function AddRef(counts: map<SymbolId, nat>, id: SymbolId): map<SymbolId, nat> {
    counts[id := (if id in counts then counts[id] else 0) + 1]
  }

  function DropRef(counts: map<SymbolId, nat>, id: SymbolId): map<SymbolId, nat>
    requires id in counts && counts[id] > 0
  {
    if counts[id] == 1 then counts - {id} else counts[id := counts[id] - 1]
  }

  lemma KeysOfInsert(edges: map<EdgeKey, Edge>, e: Edge, side: Endpoint, id: SymbolId)
    requires e.Key() !in edges
    ensures |KeysAt(edges[e.Key() := e], side, id)| == |KeysAt(edges, side, id)| + if End(e, side) == id then 1 else 0
  {
    hide Edge.Key;
    var now := KeysAt(edges[e.Key() := e], side, id);
    if End(e, side) == id {
      assert now == KeysAt(edges, side, id) + {e.Key()};
    } else {
      assert now == KeysAt(edges, side, id);
    }
  }

  lemma DegreeOfInsert(edges: map<EdgeKey, Edge>, e: Edge, id: SymbolId)
    requires e.Key() !in edges
    ensures Degree(edges[e.Key() := e], id) ==
            Degree(edges, id) + (if e.from == id then 1 else 0) + (if e.to == id then 1 else 0)
  {
    hide KeysAt, Edge.Key;
    KeysOfInsert(edges, e, From, id);
    KeysOfInsert(edges, e, To, id);
  }

  lemma RefcountsAfterInsert(counts: map<SymbolId, nat>, edges: map<EdgeKey, Edge>, e: Edge)
    requires AreRefcounts(counts, edges) && e.Key() !in edges
    ensures AreRefcounts(AddRef(AddRef(counts, e.from), e.to), edges[e.Key() := e])
  {
    hide Degree;
    forall id {
      DegreeOfInsert(edges, e, id);
    }
  }

  lemma RefcountsBeforeRemove(counts: map<SymbolId, nat>, edges: map<EdgeKey, Edge>, key: EdgeKey)
    requires AreRefcounts(counts, edges) && WellKeyed(edges) && key in edges
    ensures var e := edges[key];
            && e.from in counts && counts[e.from] > 0
            && e.to in DropRef(counts, e.from) && DropRef(counts, e.from)[e.to] > 0
            && AreRefcounts(DropRef(DropRef(counts, e.from), e.to), edges - {key})
  {
    hide Degree;
    var e := edges[key];
    var rest := edges - {key};
    assert rest[e.Key() := e] == edges;
    DegreeOfInsert(rest, e, e.from);
    DegreeOfInsert(rest, e, e.to);
    forall id {
      DegreeOfInsert(rest, e, id);
    }
  }

  // ----- What a graph or a delta asks for

  function IdsOf(symbols: seq<Symbol>): (ids: seq<SymbolId>)
    ensures |ids| == |symbols|
  {
    seq(|symbols|, i requires 0 <= i < |symbols| => symbols[i].id)
  }

  function KeysOf(edges: seq<Edge>): (keys: seq<EdgeKey>)
    ensures |keys| == |edges|
  {
    seq(|edges|, i requires 0 <= i < |edges| => edges[i].Key())
  }

  /** The definitions after inserting or replacing each symbol in turn. */
  function WithSymbols(definitions: map<SymbolId, Symbol>, symbols: seq<Symbol>): map<SymbolId, Symbol> {
    if symbols == [] then definitions else
      var last := |symbols| - 1;
      WithSymbols(definitions, symbols[..last])[symbols[last].id := symbols[last]]
  }

  /** The edges after inserting or replacing each edge in turn. */
  function WithEdges(edges: map<EdgeKey, Edge>, added: seq<Edge>): map<EdgeKey, Edge> {
    if added == [] then edges else
      var last := |added| - 1;
      WithEdges(edges, added[..last])[added[last].Key() := added[last]]
  }

  lemma LastSymbolIsNew(symbols: seq<Symbol>)
    requires symbols != [] && NoRepeats(IdsOf(symbols))
    ensures forall s :: s in symbols <==> s in symbols[..|symbols| - 1] || s == symbols[|symbols| - 1]
    ensures forall s :: s in symbols[..|symbols| - 1] ==> s.id != symbols[|symbols| - 1].id
  {
    var last := |symbols| - 1;
    assert symbols == symbols[..last] + [symbols[last]];
    forall s | s in symbols[..last] ensures s.id != symbols[last].id {
      var i :| 0 <= i < last && symbols[i] == s;
      assert IdsOf(symbols)[i] != IdsOf(symbols)[last];
    }
  }

  lemma LastEdgeIsNew(added: seq<Edge>)
    requires added != [] && NoRepeats(KeysOf(added))
    ensures forall e :: e in added <==> e in added[..|added| - 1] || e == added[|added| - 1]
    ensures forall e :: e in added[..|added| - 1] ==> e.Key() != added[|added| - 1].Key()
  {
    hide Edge.Key;
    var last := |added| - 1;
    assert added == added[..last] + [added[last]];
    forall e | e in added[..last] ensures e.Key() != added[last].Key() {
      var i :| 0 <= i < last && added[i] == e;
      assert KeysOf(added)[i] != KeysOf(added)[last];
    }
  }

  /** Upserting distinct symbols gives each its new definition and leaves every other one alone. */
  lemma {:induction false} WithSymbolsMeans(definitions: map<SymbolId, Symbol>, symbols: seq<Symbol>)
    requires NoRepeats(IdsOf(symbols))
    ensures var after := WithSymbols(definitions, symbols);
            && (forall s :: s in symbols ==> s.id in after && after[s.id] == s)
            && (forall id :: (forall s :: s in symbols ==> s.id != id) ==>
                  (id in after <==> id in definitions) && (id in after ==> after[id] == definitions[id]))
  {
    if symbols == [] {
    } else {
      var last := |symbols| - 1;
      assert IdsOf(symbols[..last]) == IdsOf(symbols)[..last];
      WithSymbolsMeans(definitions, symbols[..last]);
      LastSymbolIsNew(symbols);
    }
  }

  lemma {:induction false} WithEdgesMeans(edges: map<EdgeKey, Edge>, added: seq<Edge>)
    requires NoRepeats(KeysOf(added))
    ensures var after := WithEdges(edges, added);
            && (forall e :: e in added ==> e.Key() in after && after[e.Key()] == e)
            && (forall key :: (forall e :: e in added ==> e.Key() != key) ==>
                  (key in after <==> key in edges) && (key in after ==> after[key] == edges[key]))
  {
    hide Edge.Key;
    if added == [] {
    } else {
      var last := |added| - 1;
      assert KeysOf(added[..last]) == KeysOf(added)[..last];
      WithEdgesMeans(edges, added[..last]);
      LastEdgeIsNew(added);
    }
  }

  function Without<K, V>(m: map<K, V>, removed: seq<K>): map<K, V> {
    m - set k | k in removed
  }

  ghost predicate RemovalsAccepted<V(!new)>(removed: seq<V>, present: set<V>) {
    NoRepeats(removed) && forall v :: v in removed ==> v in present
  }

  /** Removals name distinct present items and upserts name distinct items. */
  ghost predicate SymbolsAccepted(definitions: map<SymbolId, Symbol>, delta: ScopeGraphDelta) {
    && RemovalsAccepted(delta.removedSymbols, definitions.Keys)
    && NoRepeats(IdsOf(delta.upsertedSymbols))
  }

  ghost predicate EdgesAccepted(edges: map<EdgeKey, Edge>, delta: ScopeGraphDelta) {
    && RemovalsAccepted(delta.removedEdges, edges.Keys)
    && NoRepeats(KeysOf(delta.upsertedEdges))
  }

  /** The lineage test: the delta starts from the index's snapshot and moves on. */
  predicate LineageAccepted(snapshot: Option<SnapshotToken>, delta: ScopeGraphDelta) {
    snapshot.Some? && delta.baseSnapshot == snapshot.value && delta.snapshot != snapshot.value
  }

  /** The first element that repeats an earlier one or is missing decides the error. */
  ghost predicate FirstBad<V(!new)>(values: seq<V>, present: set<V>, i: nat) {
    && i < |values|
    && NoRepeats(values[..i]) && (forall v :: v in values[..i] ==> v in present)
    && (values[i] in values[..i] || values[i] !in present)
  }

  /** `error` reports the first faulty removal, or else the first repeated upsert. */
  ghost predicate SymbolFault(definitions: map<SymbolId, Symbol>, delta: ScopeGraphDelta, error: QueryError) {
    || (exists i: nat :: FirstBad(delta.removedSymbols, definitions.Keys, i) &&
          error == (var id := delta.removedSymbols[i];
                    if id in delta.removedSymbols[..i] then DuplicateRemovedSymbol(id) else MissingRemovedSymbol(id)))
    || (RemovalsAccepted(delta.removedSymbols, definitions.Keys)
        && exists i: nat :: FirstRepeat(IdsOf(delta.upsertedSymbols), i) &&
             error == DuplicateUpsertedSymbol(IdsOf(delta.upsertedSymbols)[i]))
  }

  ghost predicate EdgeFault(edges: map<EdgeKey, Edge>, delta: ScopeGraphDelta, error: QueryError) {
    || (exists i: nat :: FirstBad(delta.removedEdges, edges.Keys, i) &&
          error == (var key := delta.removedEdges[i];
                    if key in delta.removedEdges[..i] then DuplicateRemovedEdge(key) else MissingRemovedEdge(key)))
    || (RemovalsAccepted(delta.removedEdges, edges.Keys)
        && exists i: nat :: FirstRepeat(KeysOf(delta.upsertedEdges), i) &&
             error == DuplicateUpsertedEdge(KeysOf(delta.upsertedEdges)[i]))
  }

  /** What an accepted delta makes of the definitions. */
  ghost predicate SymbolsUpdated(before: map<SymbolId, Symbol>, after: map<SymbolId, Symbol>, delta: ScopeGraphDelta) {
    && (forall s :: s in delta.upsertedSymbols ==> s.id in after && after[s.id] == s)
    && (forall id :: (forall s :: s in delta.upsertedSymbols ==> s.id != id) ==>
          && (id in after <==> id in before && id !in delta.removedSymbols)
          && (id in after ==> after[id] == before[id]))
  }

  /** What an accepted delta makes of the edges. */
  ghost predicate EdgesUpdated(before: map<EdgeKey, Edge>, after: map<EdgeKey, Edge>, delta: ScopeGraphDelta) {
    && (forall e :: e in delta.upsertedEdges ==> e.Key() in after && after[e.Key()] == e)
    && (forall key :: (forall e :: e in delta.upsertedEdges ==> e.Key() != key) ==>
          && (key in after <==> key in before && key !in delta.removedEdges)
          && (key in after ==> after[key] == before[key]))
  }

  lemma AcceptedSymbolsUpdated(before: map<SymbolId, Symbol>, delta: ScopeGraphDelta)
    requires SymbolsAccepted(before, delta)
    ensures SymbolsUpdated(before, WithSymbols(Without(before, delta.removedSymbols), delta.upsertedSymbols), delta)
  {
    hide WithSymbols, IdsOf;
    WithSymbolsMeans(Without(before, delta.removedSymbols), delta.upsertedSymbols);
  }

  lemma AcceptedEdgesUpdated(before: map<EdgeKey, Edge>, delta: ScopeGraphDelta)
    requires EdgesAccepted(before, delta)
    ensures EdgesUpdated(before, WithEdges(Without(before, delta.removedEdges), delta.upsertedEdges), delta)
  {
    hide WithEdges, KeysOf, Edge.Key;
    WithEdgesMeans(Without(before, delta.removedEdges), delta.upsertedEdges);
  }

  /** The error of a rejected delta: lineage first, in three steps, then symbols, then edges. */
  ghost predicate Rejection(snapshot: Option<SnapshotToken>, definitions: map<SymbolId, Symbol>,
                            edges: map<EdgeKey, Edge>, delta: ScopeGraphDelta, error: QueryError)
  {
    if snapshot.None? then error == ScopeDeltaRequiresTrackedIndex
    else if delta.baseSnapshot != snapshot.value then error == SnapshotMismatch(snapshot.value, delta.baseSnapshot)
    else if delta.snapshot == snapshot.value then error == ScopeDeltaSnapshotDoesNotAdvance
    else if !SymbolsAccepted(definitions, delta) then SymbolFault(definitions, delta, error)
    else !EdgesAccepted(edges, delta) && EdgeFault(edges, delta, error)
  }

  /** Scan removals: no element twice, every element present. */
  method CheckRemoved<V(==, !new)>(values: seq<V>, present: set<V>) returns (bad: Option<(nat, bool)>)
    ensures bad.None? <==> RemovalsAccepted(values, present)
    ensures bad.Some? ==> FirstBad(values, present, bad.value.0)
    ensures bad.Some? ==> (bad.value.1 <==> values[bad.value.0] in values[..bad.value.0])
  {
    var seen: set<V> := {};
    for i := 0 to |values|
      invariant forall v :: v in seen <==> v in values[..i]
      invariant NoRepeats(values[..i]) && forall v :: v in values[..i] ==> v in present
    {
      if values[i] in seen {
        RepeatsShow(values, i);
        return Some((i, true));
      }
      if values[i] !in present {
        return Some((i, false));
      }
      NoRepeatsGrows(values, i);
      assert values[..i + 1] == values[..i] + [values[i]];
      seen := seen + {values[i]};
    }
    assert values[..|values|] == values;
    bad := None;
  }

  // ----- How the derived fields change

  lemma WithoutNext<K(!new), V(!new)>(m: map<K, V>, removed: seq<K>, i: nat)
    requires i < |removed| && NoRepeats(removed) && forall k :: k in removed ==> k in m
    ensures removed[i] in Without(m, removed[..i])
    ensures Without(m, removed[..i + 1]) == Without(m, removed[..i]) - {removed[i]}
  {
    assert removed[..i + 1] == removed[..i] + [removed[i]];
    assert removed[i] !in removed[..i];
  }

  lemma MembersAfterInsert(definitions: map<SymbolId, Symbol>, symbol: Symbol, scip: SymbolId -> string)
    ensures var now := definitions[symbol.id := symbol];
            && NameAt(definitions)[symbol.id := symbol.name] == NameAt(now)
            && FileAt(definitions)[symbol.id := symbol.file] == FileAt(now)
            && ScipAt(definitions.Keys, scip)[symbol.id := scip(symbol.id)] == ScipAt(now.Keys, scip)
    ensures symbol.id !in definitions ==>
              symbol.id !in NameAt(definitions) && symbol.id !in FileAt(definitions)
              && symbol.id !in ScipAt(definitions.Keys, scip)
  {
  }

  lemma MembersAfterRemove(definitions: map<SymbolId, Symbol>, id: SymbolId, scip: SymbolId -> string)
    requires id in definitions
    ensures id in NameAt(definitions) && NameAt(definitions)[id] == definitions[id].name
    ensures id in FileAt(definitions) && FileAt(definitions)[id] == definitions[id].file
    ensures id in ScipAt(definitions.Keys, scip) && ScipAt(definitions.Keys, scip)[id] == scip(id)
    ensures NameAt(definitions) - {id} == NameAt(definitions - {id})
    ensures FileAt(definitions) - {id} == FileAt(definitions - {id})
    ensures ScipAt(definitions.Keys, scip) - {id} == ScipAt((definitions - {id}).Keys, scip)
  {
  }

  lemma EndsAfterInsert(edges: map<EdgeKey, Edge>, e: Edge)
    ensures EndAt(edges, From)[e.Key() := e.from] == EndAt(edges[e.Key() := e], From)
    ensures EndAt(edges, To)[e.Key() := e.to] == EndAt(edges[e.Key() := e], To)
    ensures EndAt(edges, From).Keys == EndAt(edges, To).Keys == edges.Keys
  {
  }

  lemma EndsAfterRemove(edges: map<EdgeKey, Edge>, key: EdgeKey)
    requires key in edges
    ensures EndAt(edges, From).Keys == EndAt(edges, To).Keys == edges.Keys
    ensures EndAt(edges, From)[key] == edges[key].from && EndAt(edges, To)[key] == edges[key].to
    ensures EndAt(edges, From) - {key} == EndAt(edges - {key}, From)
    ensures EndAt(edges, To) - {key} == EndAt(edges - {key}, To)
  {
  }

  lemma ReplaceKeepsEndpoints(edges: map<EdgeKey, Edge>, counts: map<SymbolId, nat>, e: Edge)
    requires WellKeyed(edges) && e.Key() in edges && AreRefcounts(counts, edges)
    ensures WellKeyed(edges[e.Key() := e]) && AreRefcounts(counts, edges[e.Key() := e])
    ensures EndAt(edges[e.Key() := e], From) == EndAt(edges, From)
    ensures EndAt(edges[e.Key() := e], To) == EndAt(edges, To)
  {
    var now := edges[e.Key() := e];
    assert edges[e.Key()].Key() == e.Key();
    forall id ensures Degree(now, id) == Degree(edges, id) {
      assert KeysAt(now, From, id) == KeysAt(edges, From, id);
      assert KeysAt(now, To, id) == KeysAt(edges, To, id);
    }
  }

  // ----- The index

  class GraphIndex {
    const scip: SymbolId -> string

    var definitions: map<SymbolId, Symbol>
    var edges: map<EdgeKey, Edge>
    var knownIds: set<SymbolId>
    var endpointRefcounts: map<SymbolId, nat>
    var definitionsByName: map<string, seq<SymbolId>>
    var idsByScip: map<string, seq<SymbolId>>
    var definitionsByScip: map<string, seq<SymbolId>>
    var definitionsByFile: map<string, seq<SymbolId>>
    var outgoing: map<SymbolId, seq<EdgeKey>>
    var incoming: map<SymbolId, seq<EdgeKey>>
    var snapshot: Option<SnapshotToken>

    /** The known identities are the definitions and the edge endpoints. */
    ghost predicate KnownValid()
      reads this`definitions, this`endpointRefcounts, this`knownIds, this`idsByScip
    {
      && knownIds == definitions.Keys + endpointRefcounts.Keys
      && IsBuckets(idsByScip, ScipAt(knownIds, scip), CompareId)
    }

    ghost predicate DefinitionsValid()
      reads this`definitions, this`definitionsByName, this`definitionsByScip, this`definitionsByFile
    {
      && WellNamed(definitions)
      && IsBuckets(definitionsByName, NameAt(definitions), CompareId)
      && IsBuckets(definitionsByScip, ScipAt(definitions.Keys, scip), CompareId)
      && IsBuckets(definitionsByFile, FileAt(definitions), CompareId)
    }

    ghost predicate EdgesValid()
      reads this`edges, this`endpointRefcounts, this`outgoing, this`incoming
    {
      && WellKeyed(edges)
      && AreRefcounts(endpointRefcounts, edges)
      && IsAdjacency(edges, From, outgoing)
      && IsAdjacency(edges, To, incoming)
    }

    ghost predicate Valid()
      reads this
    {
      KnownValid() && DefinitionsValid() && EdgesValid()
    }

    /** The empty index. */
    constructor (scip: SymbolId -> string, snapshot: Option<SnapshotToken>)
      ensures Valid() && definitions == map[] && edges == map[]
      ensures this.scip == scip && this.snapshot == snapshot
    {
      this.scip := scip;
      definitions, edges, knownIds, endpointRefcounts := map[], map[], {}, map[];
      definitionsByName, idsByScip, definitionsByScip, definitionsByFile := map[], map[], map[], map[];
      outgoing, incoming := map[], map[];
      this.snapshot := snapshot;
    }

    /** A copy that shares nothing with the original. */
    constructor Clone(from: GraphIndex)
      ensures scip == from.scip
      ensures definitions == from.definitions && edges == from.edges
      ensures knownIds == from.knownIds && endpointRefcounts == from.endpointRefcounts
      ensures definitionsByName == from.definitionsByName && idsByScip == from.idsByScip
      ensures definitionsByScip == from.definitionsByScip && definitionsByFile == from.definitionsByFile
      ensures outgoing == from.outgoing && incoming == from.incoming
      ensures snapshot == from.snapshot
    {
      scip := from.scip;
      definitions, edges, knownIds, endpointRefcounts :=
        from.definitions, from.edges, from.knownIds, from.endpointRefcounts;
      definitionsByName, idsByScip, definitionsByScip, definitionsByFile :=
        from.definitionsByName, from.idsByScip, from.definitionsByScip, from.definitionsByFile;
      outgoing, incoming, snapshot := from.outgoing, from.incoming, from.snapshot;
    }

    // ----- Bulk building

    /** Like `Valid`, with every bucket in insertion order. */
    ghost predicate Loose()
      reads this
    {
      LooseKnown() && LooseDefinitions() && LooseEdges()
    }

    ghost predicate LooseKnown()
      reads this`definitions, this`endpointRefcounts, this`knownIds, this`idsByScip
    {
      knownIds == definitions.Keys + endpointRefcounts.Keys && IsLoose(idsByScip, ScipAt(knownIds, scip))
    }

    ghost predicate LooseDefinitions()
      reads this`definitions, this`definitionsByName, this`definitionsByScip, this`definitionsByFile
    {
      && WellNamed(definitions)
      && IsLoose(definitionsByName, NameAt(definitions))
      && IsLoose(definitionsByScip, ScipAt(definitions.Keys, scip))
      && IsLoose(definitionsByFile, FileAt(definitions))
    }

    ghost predicate LooseEdges()
      reads this`edges, this`endpointRefcounts, this`outgoing, this`incoming
    {
      WellKeyed(edges) && AreRefcounts(endpointRefcounts, edges) && LooseAdjacency()
    }

    ghost predicate LooseAdjacency()
      reads this`edges, this`outgoing, this`incoming
    {
      IsLoose(outgoing, EndAt(edges, From)) && IsLoose(incoming, EndAt(edges, To))
    }

    lemma EmptyIsLoose()
      requires definitions == map[] && edges == map[] && Valid()
      ensures Loose() && endpointRefcounts == map[]
    {
      assert forall id :: Degree(edges, id) == 0;
    }

    method PushSymbol(symbol: Symbol)
      requires Loose() && symbol.id !in definitions && endpointRefcounts == map[]
      modifies this`definitions, this`definitionsByName, this`definitionsByScip, this`definitionsByFile,
               this`knownIds, this`idsByScip
      ensures Loose() && definitions == old(definitions)[symbol.id := symbol]
    {
      hide IsLoose, AreRefcounts, NameAt, FileAt, ScipAt, LooseDefinitions, LooseEdges;
      PushDefinition(symbol);
      PushKnown(symbol.id);
      assert knownIds == definitions.Keys + endpointRefcounts.Keys;
    }

    method PushDefinition(symbol: Symbol)
      requires LooseDefinitions() && symbol.id !in definitions
      modifies this`definitions, this`definitionsByName, this`definitionsByScip, this`definitionsByFile
      ensures LooseDefinitions() && definitions == old(definitions)[symbol.id := symbol]
    {
      hide IsLoose, PushBucket, NameAt, FileAt, ScipAt;
      var id := symbol.id;
      MembersAfterInsert(definitions, symbol, scip);
      PushKeepsLoose(definitionsByName, NameAt(definitions), symbol.name, id);
      PushKeepsLoose(definitionsByScip, ScipAt(definitions.Keys, scip), scip(id), id);
      PushKeepsLoose(definitionsByFile, FileAt(definitions), symbol.file, id);
      definitionsByName := PushBucket(definitionsByName, symbol.name, id);
      definitionsByScip := PushBucket(definitionsByScip, scip(id), id);
      definitionsByFile := PushBucket(definitionsByFile, symbol.file, id);
      definitions := definitions[id := symbol];
    }

    /** Make a new identity known. */
    method PushKnown(id: SymbolId)
      requires id !in knownIds && IsLoose(idsByScip, ScipAt(knownIds, scip))
      modifies this`knownIds, this`idsByScip
      ensures knownIds == old(knownIds) + {id} && IsLoose(idsByScip, ScipAt(knownIds, scip))
    {
      hide IsLoose, PushBucket;
      PushKeepsLoose(idsByScip, ScipAt(knownIds, scip), scip(id), id);
      assert ScipAt(knownIds, scip)[id := scip(id)] == ScipAt(knownIds + {id}, scip);
      knownIds := knownIds + {id};
      idsByScip := PushBucket(idsByScip, scip(id), id);
    }

    /** Count one endpoint and make it known. */
    method PushEndpoint(id: SymbolId)
      requires LooseKnown()
      modifies this`endpointRefcounts, this`knownIds, this`idsByScip
      ensures LooseKnown() && endpointRefcounts == AddRef(old(endpointRefcounts), id)
    {
      hide IsLoose;
      endpointRefcounts := AddRef(endpointRefcounts, id);
      if id !in knownIds {
        PushKnown(id);
      }
      assert knownIds == definitions.Keys + endpointRefcounts.Keys;
    }

    method PushAdjacency(edge: Edge)
      requires LooseAdjacency() && edge.Key() !in edges
      modifies this`edges, this`outgoing, this`incoming
      ensures LooseAdjacency() && edges == old(edges)[edge.Key() := edge]
    {
      hide IsLoose, PushBucket, Edge.Key, EndAt;
      var key := edge.Key();
      EndsAfterInsert(edges, edge);
      PushKeepsLoose(outgoing, EndAt(edges, From), edge.from, key);
      PushKeepsLoose(incoming, EndAt(edges, To), edge.to, key);
      outgoing := PushBucket(outgoing, edge.from, key);
      incoming := PushBucket(incoming, edge.to, key);
      edges := edges[key := edge];
    }

    method PushEdge(edge: Edge)
      requires Loose() && edge.Key() !in edges
      modifies this`edges, this`outgoing, this`incoming, this`endpointRefcounts, this`knownIds, this`idsByScip
      ensures Loose() && edges == old(edges)[edge.Key() := edge]
    {
      hide AreRefcounts, Edge.Key, AddRef, LooseKnown, LooseDefinitions, LooseAdjacency;
      RefcountsAfterInsert(endpointRefcounts, edges, edge);
      PushEndpoint(edge.from);
      PushEndpoint(edge.to);
      PushAdjacency(edge);
    }

    /** Put every bucket in order. */
    method SortAll()
      requires Loose()
      modifies this`definitionsByName, this`idsByScip, this`definitionsByScip, this`definitionsByFile,
               this`outgoing, this`incoming
      ensures Valid()
    {
      hide LooseKnown, LooseDefinitions, LooseEdges, KnownValid, DefinitionsValid, EdgesValid;
      SortDefinitions();
      SortKnown();
      SortEdges();
    }

    method SortDefinitions()
      requires LooseDefinitions()
      modifies this`definitionsByName, this`definitionsByScip, this`definitionsByFile
      ensures DefinitionsValid()
    {
      hide IsLoose, IsBuckets, SortBuckets, CompareId, TotalOrder, NameAt, FileAt, ScipAt;
      IdsTotallyOrdered();
      SortLoose(definitionsByName, NameAt(definitions), CompareId);
      SortLoose(definitionsByScip, ScipAt(definitions.Keys, scip), CompareId);
      SortLoose(definitionsByFile, FileAt(definitions), CompareId);
      definitionsByName := SortBuckets(definitionsByName, CompareId);
      definitionsByScip := SortBuckets(definitionsByScip, CompareId);
      definitionsByFile := SortBuckets(definitionsByFile, CompareId);
    }

    method SortKnown()
      requires LooseKnown()
      modifies this`idsByScip
      ensures KnownValid()
    {
      hide IsLoose, IsBuckets, SortBuckets, CompareId, TotalOrder, ScipAt;
      IdsTotallyOrdered();
      SortLoose(idsByScip, ScipAt(knownIds, scip), CompareId);
      idsByScip := SortBuckets(idsByScip, CompareId);
    }

    method SortEdges()
      requires LooseEdges()
      modifies this`outgoing, this`incoming
      ensures EdgesValid()
    {
      hide IsLoose, IsBuckets, SortBuckets, CompareKey, TotalOrder, AreRefcounts, EndAt;
      KeysTotallyOrdered();
      SortLoose(outgoing, EndAt(edges, From), CompareKey);
      SortLoose(incoming, EndAt(edges, To), CompareKey);
      outgoing := SortBuckets(outgoing, CompareKey);
      incoming := SortBuckets(incoming, CompareKey);
    }

    // ----- Known identities

    method EnsureKnown(id: SymbolId) returns (r: Outcome)
      requires IsBuckets(idsByScip, ScipAt(knownIds, scip), CompareId)
      modifies this`knownIds, this`idsByScip
      ensures r == Done && knownIds == old(knownIds) + {id}
      ensures IsBuckets(idsByScip, ScipAt(knownIds, scip), CompareId)
    {
      hide CompareId, InsertBucket, IsBuckets, TotalOrder;
      if id in knownIds {
        assert knownIds + {id} == knownIds;
        return Done;
      }
      IdsTotallyOrdered();
      ghost var at := ScipAt(knownIds, scip);
      InsertBucketOk(idsByScip, at, scip(id), id, CompareId);
      assert at[id := scip(id)] == ScipAt(knownIds + {id}, scip);
      knownIds := knownIds + {id};
      var inserted := InsertBucket(idsByScip, scip(id), id, CompareId);
      if inserted.Err? { return Failed(IndexInvariant); }
      idsByScip := inserted.value;
      r := Done;
    }

    /** Forget an identity that nothing names any more; it is an error if it was not known. */
    method RemoveKnownIfUnreferenced(id: SymbolId) returns (r: Outcome)
      requires IsBuckets(idsByScip, ScipAt(knownIds, scip), CompareId)
      modifies this`knownIds, this`idsByScip
      ensures IsBuckets(idsByScip, ScipAt(knownIds, scip), CompareId)
      ensures if id in definitions || id in endpointRefcounts then r == Done && knownIds == old(knownIds)
              else if id in old(knownIds) then r == Done && knownIds == old(knownIds) - {id}
              else r == Failed(IndexInvariant) && knownIds == old(knownIds)
    {
      hide CompareId, RemoveBucket, IsBuckets, TotalOrder;
      if id in definitions || id in endpointRefcounts {
        return Done;
      }
      if id !in knownIds { return Failed(IndexInvariant); }
      IdsTotallyOrdered();
      ghost var at := ScipAt(knownIds, scip);
      RemoveBucketOk(idsByScip, at, id, CompareId);
      assert at - {id} == ScipAt(knownIds - {id}, scip);
      knownIds := knownIds - {id};
      var removed := RemoveBucket(idsByScip, scip(id), id, CompareId);
      if removed.Err? { return Failed(IndexInvariant); }
      idsByScip := removed.value;
      r := Done;
    }

    method AddEndpoint(id: SymbolId) returns (r: Outcome)
      requires KnownValid()
      modifies this`endpointRefcounts, this`knownIds, this`idsByScip
      ensures r == Done && KnownValid() && endpointRefcounts == AddRef(old(endpointRefcounts), id)
    {
      hide CompareId, IsBuckets;
      endpointRefcounts := AddRef(endpointRefcounts, id);
      r := EnsureKnown(id);
    }

    /** Release one reference; it is an error if none is counted. */
    method RemoveEndpoint(id: SymbolId) returns (r: Outcome)
      requires KnownValid()
      modifies this`endpointRefcounts, this`knownIds, this`idsByScip
      ensures KnownValid()
      ensures if id in old(endpointRefcounts) && old(endpointRefcounts)[id] > 0
              then r == Done && endpointRefcounts == DropRef(old(endpointRefcounts), id)
              else r == Failed(IndexInvariant) && endpointRefcounts == old(endpointRefcounts)
    {
      hide CompareId, IsBuckets;
      ghost var before := endpointRefcounts;
      if id !in endpointRefcounts { return Failed(IndexInvariant); }
      if endpointRefcounts[id] == 0 { return Failed(IndexInvariant); }
      endpointRefcounts := endpointRefcounts[id := endpointRefcounts[id] - 1];
      r := Done;
      if endpointRefcounts[id] == 0 {
        endpointRefcounts := endpointRefcounts - {id};
        assert endpointRefcounts == before - {id};
        r := RemoveKnownIfUnreferenced(id);
      }
      assert knownIds == definitions.Keys + endpointRefcounts.Keys;
    }

    // ----- Definitions

    method RemoveSymbol(id: SymbolId) returns (r: Outcome)
      requires KnownValid() && DefinitionsValid()
      modifies this`definitions, this`definitionsByName, this`definitionsByScip, this`definitionsByFile,
               this`knownIds, this`idsByScip
      ensures id in old(definitions) ==>
                r == Done && KnownValid() && DefinitionsValid() && definitions == old(definitions) - {id}
      ensures id !in old(definitions) ==> r == Failed(IndexInvariant) && definitions == old(definitions)
    {
      hide CompareId, RemoveBucket, IsBuckets, TotalOrder, NameAt, FileAt, ScipAt;
      if id !in definitions { return Failed(IndexInvariant); }
      IdsTotallyOrdered();
      ghost var before := definitions;
      var symbol := definitions[id];
      definitions := definitions - {id};
      MembersAfterRemove(before, id, scip);
      RemoveBucketOk(definitionsByName, NameAt(before), id, CompareId);
      var byName := RemoveBucket(definitionsByName, symbol.name, id, CompareId);
      if byName.Err? { return Failed(IndexInvariant); }
      definitionsByName := byName.value;
      RemoveBucketOk(definitionsByScip, ScipAt(before.Keys, scip), id, CompareId);
      var byScip := RemoveBucket(definitionsByScip, scip(id), id, CompareId);
      if byScip.Err? { return Failed(IndexInvariant); }
      definitionsByScip := byScip.value;
      RemoveBucketOk(definitionsByFile, FileAt(before), id, CompareId);
      var byFile := RemoveBucket(definitionsByFile, symbol.file, id, CompareId);
      if byFile.Err? { return Failed(IndexInvariant); }
      definitionsByFile := byFile.value;
      r := RemoveKnownIfUnreferenced(id);
      assert knownIds == definitions.Keys + endpointRefcounts.Keys;
    }

    /** Insert or replace a definition; a replaced one is removed from every index first. */
    method UpsertSymbol(symbol: Symbol) returns (r: Outcome)
      requires KnownValid() && DefinitionsValid()
      modifies this`definitions, this`definitionsByName, this`definitionsByScip, this`definitionsByFile,
               this`knownIds, this`idsByScip
      ensures r == Done && KnownValid() && DefinitionsValid()
      ensures definitions == old(definitions)[symbol.id := symbol]
    {
      hide CompareId, InsertBucket, IsBuckets, TotalOrder, NameAt, FileAt, ScipAt;
      var id := symbol.id;
      if id in definitions {
        r := RemoveSymbol(id);
        if r != Done { return; }
      }
      IdsTotallyOrdered();
      r := EnsureKnown(id);
      if r != Done { return; }
      ghost var before := definitions;
      MembersAfterInsert(before, symbol, scip);
      InsertBucketOk(definitionsByName, NameAt(before), symbol.name, id, CompareId);
      var byName := InsertBucket(definitionsByName, symbol.name, id, CompareId);
      if byName.Err? { return Failed(IndexInvariant); }
      definitionsByName := byName.value;
      InsertBucketOk(definitionsByScip, ScipAt(before.Keys, scip), scip(id), id, CompareId);
      var byScip := InsertBucket(definitionsByScip, scip(id), id, CompareId);
      if byScip.Err? { return Failed(IndexInvariant); }
      definitionsByScip := byScip.value;
      InsertBucketOk(definitionsByFile, FileAt(before), symbol.file, id, CompareId);
      var byFile := InsertBucket(definitionsByFile, symbol.file, id, CompareId);
      if byFile.Err? { return Failed(IndexInvariant); }
      definitionsByFile := byFile.value;
      definitions := definitions[id := symbol];
      assert knownIds == definitions.Keys + endpointRefcounts.Keys;
      r := Done;
    }

    // ----- Edges

    /** Insert an edge, or replace the edge with the same key; endpoint counts are then left alone. */
    method UpsertEdge(edge: Edge) returns (r: Outcome)
      requires KnownValid() && EdgesValid()
      modifies this`edges, this`outgoing, this`incoming, this`endpointRefcounts, this`knownIds, this`idsByScip
      ensures r == Done && KnownValid() && EdgesValid()
      ensures edges == old(edges)[edge.Key() := edge]
    {
      hide CompareId, CompareKey, InsertBucket, IsBuckets, TotalOrder, AreRefcounts, EndAt;
      var key := edge.Key();
      ghost var before := edges;
      if key in edges {
        edges := edges[key := edge];
        ReplaceKeepsEndpoints(before, endpointRefcounts, edge);
        return Done;
      }
      KeysTotallyOrdered();
      RefcountsAfterInsert(endpointRefcounts, edges, edge);
      r := AddEndpoint(edge.from);
      if r != Done { return; }
      r := AddEndpoint(edge.to);
      if r != Done { return; }
      EndsAfterInsert(before, edge);
      InsertBucketOk(outgoing, EndAt(before, From), edge.from, key, CompareKey);
      var out := InsertBucket(outgoing, edge.from, key, CompareKey);
      if out.Err? { return Failed(IndexInvariant); }
      outgoing := out.value;
      InsertBucketOk(incoming, EndAt(before, To), edge.to, key, CompareKey);
      var into := InsertBucket(incoming, edge.to, key, CompareKey);
      if into.Err? { return Failed(IndexInvariant); }
      incoming := into.value;
      edges := edges[key := edge];
      r := Done;
    }

    method RemoveEdge(key: EdgeKey) returns (r: Outcome)
      requires KnownValid() && EdgesValid()
      modifies this`edges, this`outgoing, this`incoming, this`endpointRefcounts, this`knownIds, this`idsByScip
      ensures key in old(edges) ==> r == Done && KnownValid() && EdgesValid() && edges == old(edges) - {key}
      ensures key !in old(edges) ==> r == Failed(IndexInvariant) && edges == old(edges)
    {
      hide CompareId, CompareKey, RemoveBucket, IsBuckets, TotalOrder, AreRefcounts, EndAt, DropRef, KnownValid;
      if key !in edges { return Failed(IndexInvariant); }
      KeysTotallyOrdered();
      ghost var before := edges;
      RefcountsBeforeRemove(endpointRefcounts, edges, key);
      var edge := edges[key];
      edges := edges - {key};
      EndsAfterRemove(before, key);
      RemoveBucketOk(outgoing, EndAt(before, From), key, CompareKey);
      var out := RemoveBucket(outgoing, edge.from, key, CompareKey);
      if out.Err? { return Failed(IndexInvariant); }
      outgoing := out.value;
      RemoveBucketOk(incoming, EndAt(before, To), key, CompareKey);
      var into := RemoveBucket(incoming, edge.to, key, CompareKey);
      if into.Err? { return Failed(IndexInvariant); }
      incoming := into.value;
      r := RemoveEndpoint(edge.from);
      if r != Done { return; }
      r := RemoveEndpoint(edge.to);
    }

    // ----- Snapshot deltas

    method ValidateSymbols(delta: ScopeGraphDelta) returns (r: Outcome)
      ensures r == Done <==> SymbolsAccepted(definitions, delta)
      ensures r.Failed? ==> SymbolFault(definitions, delta, r.error)
    {
      var bad := CheckRemoved(delta.removedSymbols, definitions.Keys);
      if bad.Some? {
        var id := delta.removedSymbols[bad.value.0];
        return Failed(if bad.value.1 then DuplicateRemovedSymbol(id) else MissingRemovedSymbol(id));
      }
      var again := FindRepeat(IdsOf(delta.upsertedSymbols));
      if again.Some? {
        return Failed(DuplicateUpsertedSymbol(IdsOf(delta.upsertedSymbols)[again.value]));
      }
      r := Done;
    }

    method ValidateEdges(delta: ScopeGraphDelta) returns (r: Outcome)
      ensures r == Done <==> EdgesAccepted(edges, delta)
      ensures r.Failed? ==> EdgeFault(edges, delta, r.error)
    {
      hide Edge.Key, KeysOf;
      var bad := CheckRemoved(delta.removedEdges, edges.Keys);
      if bad.Some? {
        var key := delta.removedEdges[bad.value.0];
        return Failed(if bad.value.1 then DuplicateRemovedEdge(key) else MissingRemovedEdge(key));
      }
      var again := FindRepeat(KeysOf(delta.upsertedEdges));
      if again.Some? {
        return Failed(DuplicateUpsertedEdge(KeysOf(delta.upsertedEdges)[again.value]));
      }
      r := Done;
    }

    /**
     Apply a whole delta or nothing: it is checked first, applied to a copy, and the copy is
     swapped in. An accepted delta never fails half-way.
     */
    method ApplyScopeDelta(delta: ScopeGraphDelta) returns (r: Outcome)
      requires Valid()
      modifies this
      ensures Valid()
      ensures r == Done <==>
                LineageAccepted(old(snapshot), delta) && SymbolsAccepted(old(definitions), delta)
                && EdgesAccepted(old(edges), delta)
      ensures r == Done ==>
                && SymbolsUpdated(old(definitions), definitions, delta) && EdgesUpdated(old(edges), edges, delta)
                && snapshot == Some(delta.snapshot)
      ensures r == Done ==>
                && definitions == WithSymbols(Without(old(definitions), delta.removedSymbols), delta.upsertedSymbols)
                && edges == WithEdges(Without(old(edges), delta.removedEdges), delta.upsertedEdges)
      ensures r.Failed? ==> unchanged(this) && r.error != IndexInvariant
      ensures r.Failed? ==> Rejection(old(snapshot), old(definitions), old(edges), delta, r.error)
    {
      hide SymbolsAccepted, EdgesAccepted, WithSymbols, WithEdges, Without, KnownValid, DefinitionsValid, EdgesValid,
           SymbolsUpdated, EdgesUpdated;
      if snapshot.None? {
        return Failed(ScopeDeltaRequiresTrackedIndex);
      }
      var current := snapshot.value;
      if delta.baseSnapshot != current {
        return Failed(SnapshotMismatch(current, delta.baseSnapshot));
      }
      if delta.snapshot == current {
        return Failed(ScopeDeltaSnapshotDoesNotAdvance);
      }
      r := ValidateSymbols(delta);
      if r != Done { return; }
      r := ValidateEdges(delta);
      if r != Done { return; }

      var replacement := new GraphIndex.Clone(this);
      SameFieldsValid(this, replacement);
      r := replacement.ApplyChecked(delta);
      if r != Done { return; }
      AcceptedSymbolsUpdated(definitions, delta);
      AcceptedEdgesUpdated(edges, delta);
      replacement.snapshot := Some(delta.snapshot);
      TakeOver(replacement);
    }

    /** Become a copy of `other`. */
    method TakeOver(other: GraphIndex)
      requires other != this && other.scip == scip
      modifies this
      ensures definitions == other.definitions && edges == other.edges && snapshot == other.snapshot
      ensures other.Valid() ==> Valid()
    {
      hide *;
      TakeOverDefinitions(other);
      TakeOverEdges(other);
      if other.Valid() {
        SameFieldsValid(other, this);
      }
    }

    method TakeOverDefinitions(other: GraphIndex)
      requires other != this
      modifies this`definitions, this`definitionsByName, this`definitionsByScip, this`definitionsByFile, this`snapshot
      ensures definitions == other.definitions && snapshot == other.snapshot
      ensures definitionsByName == other.definitionsByName && definitionsByScip == other.definitionsByScip
      ensures definitionsByFile == other.definitionsByFile
    {
      definitions, definitionsByName, definitionsByScip, definitionsByFile, snapshot :=
        other.definitions, other.definitionsByName, other.definitionsByScip, other.definitionsByFile, other.snapshot;
    }

    method TakeOverEdges(other: GraphIndex)
      requires other != this
      modifies this`edges, this`endpointRefcounts, this`knownIds, this`idsByScip, this`outgoing, this`incoming
      ensures edges == other.edges && endpointRefcounts == other.endpointRefcounts
      ensures knownIds == other.knownIds && idsByScip == other.idsByScip
      ensures outgoing == other.outgoing && incoming == other.incoming
    {
      edges, endpointRefcounts, knownIds, idsByScip, outgoing, incoming :=
        other.edges, other.endpointRefcounts, other.knownIds, other.idsByScip, other.outgoing, other.incoming;
    }

    /** The four passes over the copy. */
    method ApplyChecked(delta: ScopeGraphDelta) returns (r: Outcome)
      requires Valid() && SymbolsAccepted(definitions, delta) && EdgesAccepted(edges, delta)
      modifies this
      ensures r == Done && Valid() && snapshot == old(snapshot)
      ensures definitions == WithSymbols(Without(old(definitions), delta.removedSymbols), delta.upsertedSymbols)
      ensures edges == WithEdges(Without(old(edges), delta.removedEdges), delta.upsertedEdges)
    {
      hide KnownValid, DefinitionsValid, EdgesValid;
      r := Done;
      for i := 0 to |delta.removedSymbols|
        invariant r == Done && KnownValid() && DefinitionsValid() && EdgesValid()
        invariant definitions == Without(old(definitions), delta.removedSymbols[..i])
        invariant edges == old(edges) && snapshot == old(snapshot)
      {
        WithoutNext(old(definitions), delta.removedSymbols, i);
        r := RemoveSymbol(delta.removedSymbols[i]);
        if r != Done { return; }
      }
      assert delta.removedSymbols[..|delta.removedSymbols|] == delta.removedSymbols;
      for i := 0 to |delta.removedEdges|
        invariant r == Done && KnownValid() && DefinitionsValid() && EdgesValid()
        invariant definitions == Without(old(definitions), delta.removedSymbols)
        invariant edges == Without(old(edges), delta.removedEdges[..i]) && snapshot == old(snapshot)
      {
        WithoutNext(old(edges), delta.removedEdges, i);
        r := RemoveEdge(delta.removedEdges[i]);
        if r != Done { return; }
      }
      assert delta.removedEdges[..|delta.removedEdges|] == delta.removedEdges;
      ghost var kept, left := definitions, edges;
      for i := 0 to |delta.upsertedSymbols|
        invariant r == Done && KnownValid() && DefinitionsValid() && EdgesValid()
        invariant definitions == WithSymbols(kept, delta.upsertedSymbols[..i])
        invariant edges == left && snapshot == old(snapshot)
      {
        assert delta.upsertedSymbols[..i + 1][..i] == delta.upsertedSymbols[..i];
        r := UpsertSymbol(delta.upsertedSymbols[i]);
        if r != Done { return; }
      }
      assert delta.upsertedSymbols[..|delta.upsertedSymbols|] == delta.upsertedSymbols;
      for i := 0 to |delta.upsertedEdges|
        invariant r == Done && KnownValid() && DefinitionsValid() && EdgesValid()
        invariant definitions == WithSymbols(kept, delta.upsertedSymbols)
        invariant edges == WithEdges(left, delta.upsertedEdges[..i]) && snapshot == old(snapshot)
      {
        assert delta.upsertedEdges[..i + 1][..i] == delta.upsertedEdges[..i];
        r := UpsertEdge(delta.upsertedEdges[i]);
        if r != Done { return; }
      }
      assert delta.upsertedEdges[..|delta.upsertedEdges|] == delta.upsertedEdges;
    }
  }

  lemma SameFieldsValid(a: GraphIndex, b: GraphIndex)
    requires a.Valid() && a.scip == b.scip
    requires a.definitions == b.definitions && a.edges == b.edges
    requires a.knownIds == b.knownIds && a.endpointRefcounts == b.endpointRefcounts
    requires a.definitionsByName == b.definitionsByName && a.idsByScip == b.idsByScip
    requires a.definitionsByScip == b.definitionsByScip && a.definitionsByFile == b.definitionsByFile
    requires a.outgoing == b.outgoing && a.incoming == b.incoming
    ensures b.Valid()
  {
    hide IsBuckets, AreRefcounts, WellKeyed, WellNamed;
  }

  // ----- Rebuild

  /**
   The derived fields are a function of the facts: two valid indexes of the same definitions
   and edges agree in every field, however each came about.
   */
  lemma SameFactsSameIndex(a: GraphIndex, b: GraphIndex)
    requires a.Valid() && b.Valid() && a.scip == b.scip
    requires a.definitions == b.definitions && a.edges == b.edges
    ensures a.knownIds == b.knownIds && a.endpointRefcounts == b.endpointRefcounts
    ensures a.definitionsByName == b.definitionsByName && a.idsByScip == b.idsByScip
    ensures a.definitionsByScip == b.definitionsByScip && a.definitionsByFile == b.definitionsByFile
    ensures a.outgoing == b.outgoing && a.incoming == b.incoming
  {
    hide IsBuckets, CompareId, CompareKey, Degree, TotalOrder, WellNamed, WellKeyed;
    IdsTotallyOrdered();
    KeysTotallyOrdered();
    forall id ensures id in a.endpointRefcounts <==> id in b.endpointRefcounts {
    }
    assert a.endpointRefcounts == b.endpointRefcounts;
    BucketsUnique(a.definitionsByName, b.definitionsByName, NameAt(a.definitions), CompareId);
    BucketsUnique(a.definitionsByScip, b.definitionsByScip, ScipAt(a.definitions.Keys, a.scip), CompareId);
    BucketsUnique(a.definitionsByFile, b.definitionsByFile, FileAt(a.definitions), CompareId);
    BucketsUnique(a.idsByScip, b.idsByScip, ScipAt(a.knownIds, a.scip), CompareId);
    BucketsUnique(a.outgoing, b.outgoing, EndAt(a.edges, From), CompareKey);
    BucketsUnique(a.incoming, b.incoming, EndAt(a.edges, To), CompareKey);
  }

  // ----- Building from a graph

  lemma NothingAdded()
    ensures WithSymbols(map[], []) == map[] && WithEdges(map[], []) == map[]
    ensures NoRepeats<SymbolId>([]) && NoRepeats<EdgeKey>([])
  {
  }

  lemma {:induction false} WithSymbolsKeys(symbols: seq<Symbol>)
    ensures forall id :: id in WithSymbols(map[], symbols) <==> id in IdsOf(symbols)
  {
    if symbols == [] {
    } else {
      var last := |symbols| - 1;
      WithSymbolsKeys(symbols[..last]);
      assert IdsOf(symbols) == IdsOf(symbols[..last]) + [symbols[last].id];
    }
  }

  lemma WithSymbolsNext(symbols: seq<Symbol>, i: nat)
    requires i < |symbols|
    ensures |IdsOf(symbols)| == |symbols| && IdsOf(symbols)[i] == symbols[i].id
    ensures forall id :: id in WithSymbols(map[], symbols[..i]) <==> id in IdsOf(symbols)[..i]
    ensures WithSymbols(map[], symbols[..i + 1]) == WithSymbols(map[], symbols[..i])[symbols[i].id := symbols[i]]
  {
    WithSymbolsKeys(symbols[..i]);
    assert IdsOf(symbols)[..i] == IdsOf(symbols[..i]);
    assert symbols[..i + 1][..i] == symbols[..i];
  }

  lemma {:induction false} WithEdgesKeys(edges: seq<Edge>)
    ensures forall key :: key in WithEdges(map[], edges) <==> key in KeysOf(edges)
  {
    hide Edge.Key;
    if edges == [] {
    } else {
      var last := |edges| - 1;
      WithEdgesKeys(edges[..last]);
      assert KeysOf(edges) == KeysOf(edges[..last]) + [edges[last].Key()];
    }
  }

  lemma WithEdgesNext(edges: seq<Edge>, i: nat)
    requires i < |edges|
    ensures |KeysOf(edges)| == |edges| && KeysOf(edges)[i] == edges[i].Key()
    ensures forall key :: key in WithEdges(map[], edges[..i]) <==> key in KeysOf(edges)[..i]
    ensures WithEdges(map[], edges[..i + 1]) == WithEdges(map[], edges[..i])[edges[i].Key() := edges[i]]
  {
    hide Edge.Key;
    WithEdgesKeys(edges[..i]);
    assert KeysOf(edges)[..i] == KeysOf(edges[..i]);
    assert edges[..i + 1][..i] == edges[..i];
  }

  /** `graph` lists exactly the definitions and edges, each once, in any order. */
  ghost predicate IsGraphOf(graph: CodeGraph, definitions: map<SymbolId, Symbol>, edges: map<EdgeKey, Edge>) {
    && NoRepeats(IdsOf(graph.symbols)) && NoRepeats(KeysOf(graph.edges))
    && (forall s: Symbol :: s in graph.symbols <==> s.id in definitions && definitions[s.id] == s)
    && (forall e: Edge :: e in graph.edges <==> e.Key() in edges && edges[e.Key()] == e)
  }

  lemma BuiltSymbols(symbols: seq<Symbol>)
    requires NoRepeats(IdsOf(symbols))
    ensures var after := WithSymbols(map[], symbols);
            forall s: Symbol :: s in symbols <==> s.id in after && after[s.id] == s
  {
    hide WithSymbols;
    WithSymbolsMeans(map[], symbols);
    WithSymbolsKeys(symbols);
    forall s: Symbol | s.id in IdsOf(symbols) ensures exists t :: t in symbols && t.id == s.id {
      var i :| 0 <= i < |symbols| && IdsOf(symbols)[i] == s.id;
      assert symbols[i] in symbols;
    }
  }

  lemma BuiltEdges(edges: seq<Edge>)
    requires NoRepeats(KeysOf(edges))
    ensures var after := WithEdges(map[], edges);
            forall e: Edge :: e in edges <==> e.Key() in after && after[e.Key()] == e
  {
    hide WithEdges, Edge.Key;
    WithEdgesMeans(map[], edges);
    WithEdgesKeys(edges);
    forall e: Edge | e.Key() in KeysOf(edges) ensures exists f :: f in edges && f.Key() == e.Key() {
      var i :| 0 <= i < |edges| && KeysOf(edges)[i] == e.Key();
      assert edges[i] in edges;
    }
  }

  lemma BuiltFromGraph(graph: CodeGraph)
    requires NoRepeats(IdsOf(graph.symbols)) && NoRepeats(KeysOf(graph.edges))
    ensures IsGraphOf(graph, WithSymbols(map[], graph.symbols), WithEdges(map[], graph.edges))
  {
    BuiltSymbols(graph.symbols);
    BuiltEdges(graph.edges);
  }

  method Build(graph: CodeGraph, scip: SymbolId -> string, snapshot: Option<SnapshotToken>)
    returns (r: Result<GraphIndex, QueryError>)
    ensures r.Ok? <==> NoRepeats(IdsOf(graph.symbols)) && NoRepeats(KeysOf(graph.edges))
    ensures r.Ok? ==>
              && fresh(r.value) && r.value.Valid() && r.value.scip == scip && r.value.snapshot == snapshot
              && r.value.definitions == WithSymbols(map[], graph.symbols)
              && r.value.edges == WithEdges(map[], graph.edges)
              && IsGraphOf(graph, r.value.definitions, r.value.edges)
    ensures r.Err? ==>
              var ids, keys := IdsOf(graph.symbols), KeysOf(graph.edges);
              if NoRepeats(ids)
              then exists i: nat :: FirstRepeat(keys, i) && r.error == DuplicateEdgeKey(keys[i])
              else exists i: nat :: FirstRepeat(ids, i) && r.error == DuplicateSymbolId(ids[i])
  {
    hide *;
    var index := new GraphIndex(scip, snapshot);
    index.EmptyIsLoose();
    var ids := IdsOf(graph.symbols);
    NothingAdded();
    for i := 0 to |graph.symbols|
      invariant index.Loose() && index.scip == scip && index.snapshot == snapshot
      invariant index.endpointRefcounts == map[] && index.edges == map[]
      invariant index.definitions == WithSymbols(map[], graph.symbols[..i])
      invariant NoRepeats(ids[..i])
    {
      WithSymbolsNext(graph.symbols, i);
      if graph.symbols[i].id in index.definitions {
        RepeatsShow(ids, i);
        assert FirstRepeat(ids, i) by { FirstRepeatAt(ids, i); }
        return Err(DuplicateSymbolId(graph.symbols[i].id));
      }
      NoRepeatsGrows(ids, i);
      index.PushSymbol(graph.symbols[i]);
    }
    assert graph.symbols[..|graph.symbols|] == graph.symbols && ids[..|ids|] == ids;
    var keys := KeysOf(graph.edges);
    for i := 0 to |graph.edges|
      invariant index.Loose() && index.scip == scip && index.snapshot == snapshot
      invariant index.definitions == WithSymbols(map[], graph.symbols)
      invariant index.edges == WithEdges(map[], graph.edges[..i])
      invariant NoRepeats(keys[..i])
    {
      WithEdgesNext(graph.edges, i);
      if graph.edges[i].Key() in index.edges {
        RepeatsShow(keys, i);
        assert FirstRepeat(keys, i) by { FirstRepeatAt(keys, i); }
        return Err(DuplicateEdgeKey(graph.edges[i].Key()));
      }
      NoRepeatsGrows(keys, i);
      index.PushEdge(graph.edges[i]);
    }
    assert graph.edges[..|graph.edges|] == graph.edges && keys[..|keys|] == keys;
    index.SortAll();
    BuiltFromGraph(graph);
    r := Ok(index);
  }
}
