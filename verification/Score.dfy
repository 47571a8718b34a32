/**
 Precision and recall accounting of located edges against ground truth.
 */
module Score {
  import opened Graph
  import opened Lines

  /** A reference site bound to a definition site, by file and line. */
  datatype LocEdge = LocEdge(refFile: string, refLine: nat, defFile: string, defLine: nat)

  datatype ExpectedEdge = ExpectedEdge(loc: LocEdge, role: RefRole)

  datatype Scorecard = Scorecard(truePositives: nat, falsePositives: nat, falseNegatives: nat) {
    function Merge(other: Scorecard): Scorecard {
      Scorecard(truePositives + other.truePositives, falsePositives + other.falsePositives,
                falseNegatives + other.falseNegatives)
    }

    /** A resolver that claims nothing makes no wrong claim. */
    function Precision(): real {
      var denominator := truePositives + falsePositives;
      if denominator == 0 then 1.0 else truePositives as real / denominator as real
    }

    /** An empty ground truth is fully recalled. */
    function Recall(): real {
      var denominator := truePositives + falseNegatives;
      if denominator == 0 then 1.0 else truePositives as real / denominator as real
    }
  }

  const NO_SCORE := Scorecard(0, 0, 0)

  // ----- Locating targets

  /** Where each definition is, by display string; a later definition wins. */
  function DefLoc(symbols: seq<Symbol>, scip: SymbolId -> string): map<string, (string, nat)> {
    if symbols == [] then map[] else
      var last := |symbols| - 1;
      DefLoc(symbols[..last], scip)[scip(symbols[last].id) := (symbols[last].file, symbols[last].line)]
  }

  /** A target is located among the definitions, or as a synthesized local. */
  function Locate(defLoc: map<string, (string, nat)>, display: string, sources: map<string, Source>)
    : Option<(string, nat)>
  {
    if display in defLoc then Some(defLoc[display]) else LocalDefLoc(display, sources)
  }

  /** The ways a scorer decides which emitted edges count and where they point. */
  datatype Scoring = Scoring(defLoc: map<string, (string, nat)>, sources: map<string, Source>, scip: SymbolId -> string,
                       roles: Option<set<RefRole>>)
  {
    /** `score` looks only at roles its case asserts; `score_oracle` looks at every edge. */
    predicate Sees(e: Edge) { roles.None? || e.role in roles.value }

    /** `score` locates definitions only; `score_oracle` also synthesized locals. */
    function Target(e: Edge): Option<(string, nat)> {
      if roles.Some? then if scip(e.to) in defLoc then Some(defLoc[scip(e.to)]) else None
      else Locate(defLoc, scip(e.to), sources)
    }

    function Located(e: Edge): LocEdge
      requires Target(e).Some?
    {
      LocEdge(e.occ.file, e.occ.line, Target(e).value.0, Target(e).value.1)
    }

    /** An over-connection that no location can witness. */
    predicate IsUnlocatable(e: Edge) { Sees(e) && Target(e).None? && e.provenance != External }
  }

  /** The distinct located edges, with their roles. */
  ghost function Emitted(view: Scoring, edges: seq<Edge>): set<ExpectedEdge> {
    set e | e in edges && view.Sees(e) && view.Target(e).Some? :: ExpectedEdge(view.Located(e), e.role)
  }

  ghost function Unlocatable(view: Scoring, edges: seq<Edge>): nat {
    if edges == [] then 0 else
      var last := |edges| - 1;
      Unlocatable(view, edges[..last]) + if view.IsUnlocatable(edges[last]) then 1 else 0
  }

  /** The same edges as locations only. */
  ghost function EmittedLocs(view: Scoring, edges: seq<Edge>): set<LocEdge> {
    set e | e in edges && view.Sees(e) && view.Target(e).Some? :: view.Located(e)
  }

  /** The last definition with a display. */
  ghost predicate IsLastShown(symbols: seq<Symbol>, scip: SymbolId -> string, display: string, i: nat) {
    && i < |symbols| && scip(symbols[i].id) == display
    && forall j :: i < j < |symbols| ==> scip(symbols[j].id) != display
  }

  /** A display is defined where its last definition is. */
  ghost predicate IsDefinedAt(symbols: seq<Symbol>, scip: SymbolId -> string, display: string, file: string,
                              line: nat)
  {
    exists i: nat :: IsLastShown(symbols, scip, display, i) && file == symbols[i].file && line == symbols[i].line
  }

  lemma LastShownStep(symbols: seq<Symbol>, scip: SymbolId -> string, display: string, i: nat)
    requires symbols != []
    ensures var last := |symbols| - 1;
            IsLastShown(symbols, scip, display, i) <==>
            if scip(symbols[last].id) == display then i == last else IsLastShown(symbols[..last], scip, display, i)
  {
  }

  lemma LastShownInside(symbols: seq<Symbol>, scip: SymbolId -> string, display: string, i: nat)
    requires IsLastShown(symbols, scip, display, i)
    ensures i < |symbols| && scip(symbols[i].id) == display
  {
  }

  lemma DefinedStep(symbols: seq<Symbol>, scip: SymbolId -> string, display: string, f: string, n: nat)
    requires symbols != []
    ensures var last := symbols[|symbols| - 1];
            IsDefinedAt(symbols, scip, display, f, n) <==>
            if scip(last.id) == display then f == last.file && n == last.line
            else IsDefinedAt(symbols[..|symbols| - 1], scip, display, f, n)
  {
    hide IsLastShown;
    var last := |symbols| - 1;
    forall i: nat {
      LastShownStep(symbols, scip, display, i);
    }
    forall i: nat | IsLastShown(symbols[..last], scip, display, i)
      ensures i < last && symbols[..last][i] == symbols[i]
    {
      LastShownInside(symbols[..last], scip, display, i);
    }
    if scip(symbols[last].id) == display {
      assert IsLastShown(symbols, scip, display, last);
    }
  }

  lemma {:induction false} DefLocMeans(symbols: seq<Symbol>, scip: SymbolId -> string, display: string)
    ensures display in DefLoc(symbols, scip) <==> exists i :: 0 <= i < |symbols| && scip(symbols[i].id) == display
    ensures forall f, n: nat :: IsDefinedAt(symbols, scip, display, f, n) <==>
              display in DefLoc(symbols, scip) && DefLoc(symbols, scip)[display] == (f, n)
  {
    if symbols == [] {
    } else {
      hide IsDefinedAt;
      var last := |symbols| - 1;
      DefLocMeans(symbols[..last], scip, display);
      assert forall i :: 0 <= i < last ==> symbols[..last][i] == symbols[i];
      forall f, n: nat {
        DefinedStep(symbols, scip, display, f, n);
      }
    }
  }

  /** Where the oracle scorer finds a target: at its last definition, or as a synthesized local if it has none. */
  ghost predicate IsFoundAt(symbols: seq<Symbol>, scip: SymbolId -> string, display: string,
                            sources: map<string, Source>, file: string, line: nat)
  {
    || IsDefinedAt(symbols, scip, display, file, line)
    || ((forall i :: 0 <= i < |symbols| ==> scip(symbols[i].id) != display)
        && LocalDefLoc(display, sources) == Some((file, line)))
  }

  function OracleView(graph: CodeGraph, sources: map<string, Source>, scip: SymbolId -> string): Scoring {
    Scoring(DefLoc(graph.symbols, scip), sources, scip, None)
  }

  lemma OracleTargetMeans(graph: CodeGraph, e: Edge, sources: map<string, Source>, scip: SymbolId -> string, f: string,
                          n: nat)
    ensures OracleView(graph, sources, scip).Target(e) == Some((f, n)) <==>
            IsFoundAt(graph.symbols, scip, scip(e.to), sources, f, n)
  {
    hide DefLoc, LocalDefLoc, IsDefinedAt;
    DefLocMeans(graph.symbols, scip, scip(e.to));
  }

  /** The edges the oracle scorer sees, by location. */
  lemma OracleLocsMean(graph: CodeGraph, edges: seq<Edge>, sources: map<string, Source>, scip: SymbolId -> string)
    ensures forall x :: x in EmittedLocs(OracleView(graph, sources, scip), edges) <==>
              exists e :: e in edges && x.refFile == e.occ.file && x.refLine == e.occ.line
                          && IsFoundAt(graph.symbols, scip, scip(e.to), sources, x.defFile, x.defLine)
  {
    hide DefLoc, LocalDefLoc, IsFoundAt;
    var view := OracleView(graph, sources, scip);
    forall e: Edge, f, n: nat
      ensures view.Target(e) == Some((f, n)) <==> IsFoundAt(graph.symbols, scip, scip(e.to), sources, f, n)
    {
      OracleTargetMeans(graph, e, sources, scip, f, n);
    }
    forall x ensures x in EmittedLocs(view, edges) <==>
                     exists e :: e in edges && x.refFile == e.occ.file && x.refLine == e.occ.line
                                 && IsFoundAt(graph.symbols, scip, scip(e.to), sources, x.defFile, x.defLine)
    {
      if e :| e in edges && x.refFile == e.occ.file && x.refLine == e.occ.line
              && IsFoundAt(graph.symbols, scip, scip(e.to), sources, x.defFile, x.defLine) {
        assert view.Target(e) == Some((x.defFile, x.defLine));
        assert view.Located(e) == x;
      }
    }
  }

  function RoleView(graph: CodeGraph, roles: set<RefRole>, scip: SymbolId -> string): Scoring {
    Scoring(DefLoc(graph.symbols, scip), map[], scip, Some(roles))
  }

  /** The edges the role scorer sees: of the asserted roles, to a definition, by location and role. */
  lemma RoleEdgesMean(graph: CodeGraph, edges: seq<Edge>, roles: set<RefRole>, scip: SymbolId -> string)
    ensures forall x :: x in Emitted(RoleView(graph, roles, scip), edges) <==>
              exists e :: e in edges && e.role == x.role && e.role in roles
                          && x.loc.refFile == e.occ.file && x.loc.refLine == e.occ.line
                          && IsDefinedAt(graph.symbols, scip, scip(e.to), x.loc.defFile, x.loc.defLine)
  {
    hide DefLoc, IsDefinedAt;
    var view := RoleView(graph, roles, scip);
    forall display {
      DefLocMeans(graph.symbols, scip, display);
    }
    forall x ensures x in Emitted(view, edges) <==>
                     exists e :: e in edges && e.role == x.role && e.role in roles
                                 && x.loc.refFile == e.occ.file && x.loc.refLine == e.occ.line
                                 && IsDefinedAt(graph.symbols, scip, scip(e.to), x.loc.defFile, x.loc.defLine)
    {
      if e :| e in edges && e.role == x.role && e.role in roles
              && x.loc.refFile == e.occ.file && x.loc.refLine == e.occ.line
              && IsDefinedAt(graph.symbols, scip, scip(e.to), x.loc.defFile, x.loc.defLine) {
        assert view.Target(e) == Some((x.loc.defFile, x.loc.defLine));
        assert ExpectedEdge(view.Located(e), e.role) == x;
      }
    }
  }

  /** The unlocatable edges are counted one by one: seen, found nowhere and not external. */
  lemma {:induction false} UnlocatableCounts(view: Scoring, edges: seq<Edge>)
    ensures Unlocatable(view, edges) == |set i: nat | i < |edges| && view.IsUnlocatable(edges[i])|
  {
    hide Scoring.IsUnlocatable;
    var now := set i: nat | i < |edges| && view.IsUnlocatable(edges[i]);
    if edges == [] {
      assert now == {};
    } else {
      var last := |edges| - 1;
      var init := edges[..last];
      UnlocatableCounts(view, init);
      var before := set i: nat | i < |init| && view.IsUnlocatable(init[i]);
      assert now == before + if view.IsUnlocatable(edges[last]) then {last} else {};
    }
  }

  lemma UnlocatableMeans(graph: CodeGraph, sources: map<string, Source>, roles: set<RefRole>, scip: SymbolId -> string,
                         e: Edge)
    ensures OracleView(graph, sources, scip).IsUnlocatable(e) <==>
            e.provenance != External
            && forall f, n: nat :: !IsFoundAt(graph.symbols, scip, scip(e.to), sources, f, n)
    ensures RoleView(graph, roles, scip).IsUnlocatable(e) <==>
            e.provenance != External && e.role in roles
            && forall i :: 0 <= i < |graph.symbols| ==> scip(graph.symbols[i].id) != scip(e.to)
  {
    hide DefLoc, LocalDefLoc, IsFoundAt;
    DefLocMeans(graph.symbols, scip, scip(e.to));
    var target := OracleView(graph, sources, scip).Target(e);
    if target.Some? {
      OracleTargetMeans(graph, e, sources, scip, target.value.0, target.value.1);
    }
    forall f, n: nat ensures IsFoundAt(graph.symbols, scip, scip(e.to), sources, f, n) ==> target == Some((f, n)) {
      OracleTargetMeans(graph, e, sources, scip, f, n);
    }
  }

  function Distinct<T(==)>(items: seq<T>): set<T> {
    set x | x in items
  }

  /** The true meaning of a scorecard: matched, surplus and missing edges. */
  ghost predicate Counts<T(!new)>(card: Scorecard, emitted: set<T>, expected: set<T>, unlocatable: nat) {
    && card.truePositives == |emitted * expected|
    && card.falsePositives == |emitted - expected| + unlocatable
    && card.falseNegatives == |expected - emitted|
  }

  ghost function CardFor<T(!new)>(emitted: set<T>, expected: set<T>, unlocatable: nat): (card: Scorecard)
    ensures Counts(card, emitted, expected, unlocatable)
  {
    Scorecard(|emitted * expected|, |emitted - expected| + unlocatable, |expected - emitted|)
  }

  lemma SplitCount<T>(a: set<T>, b: set<T>)
    ensures |a * b| + |a - b| == |a|
    ensures |a * b| + |b - a| == |b|
  {
    assert a == (a * b) + (a - b) && (a * b) !! (a - b);
    assert b == (a * b) + (b - a) && (a * b) !! (b - a);
  }

  /** The tallies by subtraction from the set sizes, which never underflows. */
  method Tally<T(==, !new)>(emitted: set<T>, expected: set<T>, unlocatable: nat) returns (card: Scorecard)
    ensures Counts(card, emitted, expected, unlocatable)
  {
    SplitCount(emitted, expected);
    var truePositives := |emitted * expected|;
    card := Scorecard(truePositives, (|emitted| - truePositives) + unlocatable, |expected| - truePositives);
  }

  function RolesOf(expected: seq<ExpectedEdge>): set<RefRole> {
    set x | x in expected :: x.role
  }

  /** Locate every definition by its display string. */
  method BuildDefLoc(symbols: seq<Symbol>, scip: SymbolId -> string) returns (defLoc: map<string, (string, nat)>)
    ensures defLoc == DefLoc(symbols, scip)
  {
    defLoc := map[];
    for i := 0 to |symbols|
      invariant defLoc == DefLoc(symbols[..i], scip)
    {
      assert symbols[..i + 1][..i] == symbols[..i];
      defLoc := defLoc[scip(symbols[i].id) := (symbols[i].file, symbols[i].line)];
    }
    assert symbols[..|symbols|] == symbols;
  }

  lemma EmittedNext(view: Scoring, edges: seq<Edge>, i: nat)
    requires i < |edges|
    ensures var e := edges[i];
            && Emitted(view, edges[..i + 1]) == Emitted(view, edges[..i]) +
                 (if view.Sees(e) && view.Target(e).Some? then {ExpectedEdge(view.Located(e), e.role)} else {})
            && EmittedLocs(view, edges[..i + 1]) == EmittedLocs(view, edges[..i]) +
                 (if view.Sees(e) && view.Target(e).Some? then {view.Located(e)} else {})
            && Unlocatable(view, edges[..i + 1]) ==
               Unlocatable(view, edges[..i]) + if view.IsUnlocatable(e) then 1 else 0
  {
    hide Scoring.Target, Scoring.Sees, Scoring.Located;
    assert edges[..i + 1] == edges[..i] + [edges[i]];
    assert edges[..i + 1][..i] == edges[..i];
  }

  /** Score against role-typed expectations; roles the case does not assert are invisible. */
  method ScoreExpected(graph: CodeGraph, expected: seq<ExpectedEdge>, scip: SymbolId -> string)
    returns (card: Scorecard)
    ensures var view := RoleView(graph, RolesOf(expected), scip);
            Counts(card, Emitted(view, graph.edges), Distinct(expected), Unlocatable(view, graph.edges))
  {
    hide DefLoc, Counts;
    var defLoc := BuildDefLoc(graph.symbols, scip);
    var roles := RolesOf(expected);
    ghost var view := RoleView(graph, roles, scip);
    var unlocatable: nat := 0;
    var emitted: set<ExpectedEdge> := {};
    for i := 0 to |graph.edges|
      invariant emitted == Emitted(view, graph.edges[..i]) && unlocatable == Unlocatable(view, graph.edges[..i])
    {
      var e := graph.edges[i];
      EmittedNext(view, graph.edges, i);
      if e.role !in roles {
        continue;
      }
      if scip(e.to) !in defLoc {
        if e.provenance != External {
          unlocatable := unlocatable + 1;
        }
        continue;
      }
      var (defFile, defLine) := defLoc[scip(e.to)];
      emitted := emitted + {ExpectedEdge(LocEdge(e.occ.file, e.occ.line, defFile, defLine), e.role)};
    }
    assert graph.edges[..|graph.edges|] == graph.edges;
    card := Tally(emitted, Distinct(expected), unlocatable);
  }

  /** Score against oracle locations; role is ignored. */
  method ScoreOracle(graph: CodeGraph, oracle: seq<LocEdge>, sources: map<string, Source>, scip: SymbolId -> string)
    returns (card: Scorecard)
    ensures var view := OracleView(graph, sources, scip);
            Counts(card, EmittedLocs(view, graph.edges), Distinct(oracle), Unlocatable(view, graph.edges))
  {
    hide DefLoc, Counts, LocalDefLoc;
    var defLoc := BuildDefLoc(graph.symbols, scip);
    ghost var view := OracleView(graph, sources, scip);
    var unlocatable: nat := 0;
    var emitted: set<LocEdge> := {};
    for i := 0 to |graph.edges|
      invariant emitted == EmittedLocs(view, graph.edges[..i]) && unlocatable == Unlocatable(view, graph.edges[..i])
    {
      var e := graph.edges[i];
      EmittedNext(view, graph.edges, i);
      var target := Locate(defLoc, scip(e.to), sources);
      if target.None? {
        if e.provenance != External {
          unlocatable := unlocatable + 1;
        }
        continue;
      }
      emitted := emitted + {LocEdge(e.occ.file, e.occ.line, target.value.0, target.value.1)};
    }
    assert graph.edges[..|graph.edges|] == graph.edges;
    card := Tally(emitted, Distinct(oracle), unlocatable);
  }

  // ----- Confidence tiers

  /** Edges at or above a threshold; symbols are kept unchanged. */
  function KeepAtLeast(edges: seq<Edge>, threshold: Confidence): seq<Edge> {
    if edges == [] then [] else
      var last := |edges| - 1;
      KeepAtLeast(edges[..last], threshold) + if edges[last].confidence.AtLeast(threshold) then [edges[last]] else []
  }

  function MinConfidence(graph: CodeGraph, threshold: Confidence): CodeGraph {
    CodeGraph(graph.symbols, KeepAtLeast(graph.edges, threshold))
  }

  lemma {:induction false} KeepAtLeastContains(edges: seq<Edge>, threshold: Confidence, e: Edge)
    ensures e in KeepAtLeast(edges, threshold) <==> e in edges && e.confidence.AtLeast(threshold)
  {
    if edges == [] {
    } else {
      var last := |edges| - 1;
      KeepAtLeastContains(edges[..last], threshold, e);
      assert edges == edges[..last] + [edges[last]];
    }
  }

  /** The lowest tier is the whole graph. */
  lemma {:induction false} HeuristicKeepsAll(edges: seq<Edge>)
    ensures KeepAtLeast(edges, Heuristic) == edges
  {
    if edges == [] {
    } else {
      var last := |edges| - 1;
      HeuristicKeepsAll(edges[..last]);
      assert edges == edges[..last] + [edges[last]];
    }
  }

  lemma UnlocatableAppend(view: Scoring, edges: seq<Edge>, e: Edge)
    ensures Unlocatable(view, edges + [e]) == Unlocatable(view, edges) + if view.IsUnlocatable(e) then 1 else 0
    ensures Unlocatable(view, edges + []) == Unlocatable(view, edges)
  {
    assert (edges + [e])[..|edges|] == edges;
    assert edges + [] == edges;
  }

  lemma {:induction false} UnlocatableShrinks(view: Scoring, edges: seq<Edge>, low: Confidence, high: Confidence)
    requires high.AtLeast(low)
    ensures Unlocatable(view, KeepAtLeast(edges, high)) <= Unlocatable(view, KeepAtLeast(edges, low))
  {
    hide Scoring.IsUnlocatable;
    if edges == [] {
    } else {
      var last := |edges| - 1;
      UnlocatableShrinks(view, edges[..last], low, high);
      UnlocatableAppend(view, KeepAtLeast(edges[..last], low), edges[last]);
      UnlocatableAppend(view, KeepAtLeast(edges[..last], high), edges[last]);
    }
  }

  lemma EmittedShrinks(view: Scoring, edges: seq<Edge>, low: Confidence, high: Confidence)
    requires high.AtLeast(low)
    ensures Emitted(view, KeepAtLeast(edges, high)) <= Emitted(view, KeepAtLeast(edges, low))
    ensures EmittedLocs(view, KeepAtLeast(edges, high)) <= EmittedLocs(view, KeepAtLeast(edges, low))
  {
    hide Scoring.Target, Scoring.Sees, Scoring.Located, KeepAtLeast;
    forall e | e in KeepAtLeast(edges, high) ensures e in KeepAtLeast(edges, low) {
      KeepAtLeastContains(edges, high, e);
      KeepAtLeastContains(edges, low, e);
    }
  }

  /** Every edge at or above the threshold is kept as often as it occurs, and no other. */
  lemma {:induction false} KeepAtLeastCounts(edges: seq<Edge>, threshold: Confidence, e: Edge)
    ensures multiset(KeepAtLeast(edges, threshold))[e] ==
            if e.confidence.AtLeast(threshold) then multiset(edges)[e] else 0
  {
    if edges == [] {
    } else {
      var last := |edges| - 1;
      KeepAtLeastCounts(edges[..last], threshold, e);
      assert edges == edges[..last] + [edges[last]];
    }
  }

  /** How two tiers of one graph compare: the higher one claims less and misses more. */
  ghost predicate Tightens(low: Scorecard, high: Scorecard) {
    && high.truePositives <= low.truePositives
    && high.falsePositives <= low.falsePositives
    && low.falseNegatives <= high.falseNegatives
    && low.truePositives + low.falseNegatives == high.truePositives + high.falseNegatives
  }

  lemma SubsetCount<T>(a: set<T>, b: set<T>)
    requires a <= b
    ensures |a| <= |b|
  {
    assert b == a + (b - a) && a !! (b - a);
  }

  lemma CountsTighten<T(!new)>(low: Scorecard, high: Scorecard, more: set<T>, fewer: set<T>, expected: set<T>,
                               lowUnlocatable: nat, highUnlocatable: nat)
    requires fewer <= more && highUnlocatable <= lowUnlocatable
    requires Counts(low, more, expected, lowUnlocatable) && Counts(high, fewer, expected, highUnlocatable)
    ensures Tightens(low, high)
  {
    SplitCount(more, expected);
    SplitCount(fewer, expected);
    SubsetCount(fewer * expected, more * expected);
    SubsetCount(fewer - expected, more - expected);
  }

  lemma DivideMonotone(a: real, b: real, n: real)
    requires a <= b && n > 0.0
    ensures a / n <= b / n
  {
  }

  /** Recall never rises from a tier to a tighter one, and their sums keep comparing alike. */
  lemma TightensRecall(low: Scorecard, high: Scorecard)
    requires Tightens(low, high)
    ensures high.Recall() <= low.Recall()
  {
    var n := low.truePositives + low.falseNegatives;
    if n > 0 {
      DivideMonotone(high.truePositives as real, low.truePositives as real, n as real);
    }
  }

  lemma MatchedApart<T>(a: set<T>, b: set<T>, c: set<T>, d: set<T>)
    requires a + b !! c + d
    ensures |(a + c) * (b + d)| == |a * b| + |c * d|
  {
    assert (a + c) * (b + d) == a * b + c * d && a * b !! c * d;
  }

  lemma LeftApart<T>(a: set<T>, b: set<T>, c: set<T>, d: set<T>)
    requires a + b !! c + d
    ensures |(a + c) - (b + d)| == |a - b| + |c - d|
  {
    assert (a + c) - (b + d) == (a - b) + (c - d) && a - b !! c - d;
  }

  /** Merging the cards of two disjoint problems gives the card of both together. */
  lemma MergeCounts<T(!new)>(a: Scorecard, b: Scorecard, emittedA: set<T>, expectedA: set<T>, unlocatableA: nat,
                             emittedB: set<T>, expectedB: set<T>, unlocatableB: nat)
    requires Counts(a, emittedA, expectedA, unlocatableA) && Counts(b, emittedB, expectedB, unlocatableB)
    requires emittedA + expectedA !! emittedB + expectedB
    ensures Counts(a.Merge(b), emittedA + emittedB, expectedA + expectedB, unlocatableA + unlocatableB)
  {
    MatchedApart(emittedA, expectedA, emittedB, expectedB);
    LeftApart(emittedA, expectedA, emittedB, expectedB);
    LeftApart(expectedA, emittedA, expectedB, emittedB);
  }

  /** Recall is the matched share of what was expected, precision that of what was claimed; of nothing it is all. */
  lemma RatesMean<T(!new)>(card: Scorecard, emitted: set<T>, expected: set<T>, unlocatable: nat)
    requires Counts(card, emitted, expected, unlocatable)
    ensures card.Recall() * |expected| as real == if expected == {} then 0.0 else |emitted * expected| as real
    ensures expected == {} ==> card.Recall() == 1.0
    ensures var claimed := |emitted| + unlocatable;
            && card.Precision() * claimed as real == (if claimed == 0 then 0.0 else |emitted * expected| as real)
            && (claimed == 0 ==> card.Precision() == 1.0)
  {
    SplitCount(emitted, expected);
    assert expected == {} ==> |expected| == 0;
  }

  lemma MergeTightens(low: Scorecard, high: Scorecard, otherLow: Scorecard, otherHigh: Scorecard)
    requires Tightens(low, high) && Tightens(otherLow, otherHigh)
    ensures Tightens(low.Merge(otherLow), high.Merge(otherHigh))
  {
  }
}
