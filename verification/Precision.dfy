/**
 Precision, which need not rise with the confidence tier: a graph on which it falls, and the graphs
 on which no case can make it fall.
 */
module Precision {
  import opened Graph
  import opened Lines
  import opened Score
  import opened Runner

  // ----- Two cards

  lemma DroppedAgainstKept(a: int, b: int, c: int, d: int)
    ensures (a - c) * d <= c * (b - d) <==> a * (c + d) <= c * (a + b)
  {
  }

  lemma ScaleOrder(x: real, y: real, k: real)
    requires k > 0.0
    ensures x <= y <==> x * k <= y * k
  {
  }

  lemma CrossMultiply(a: nat, m: nat, c: nat, n: nat)
    requires m > 0 && n > 0
    ensures a as real / m as real <= c as real / n as real <==> a * n <= c * m
  {
    var x, y := a as real / m as real, c as real / n as real;
    var k := m as real * n as real;
    assert x * m as real == a as real && y * n as real == c as real;
    assert x * k == (x * m as real) * n as real == (a * n) as real;
    assert y * k == (y * n as real) * m as real == (c * m) as real;
    ScaleOrder(x, y, k);
  }

  /** Precision is kept exactly when the dropped claims are no more precise than the kept ones. */
  lemma PrecisionKeptExactly(low: Scorecard, high: Scorecard)
    requires Tightens(low, high)
    ensures low.Precision() <= high.Precision() <==>
            (low.truePositives - high.truePositives) * high.falsePositives
              <= high.truePositives * (low.falsePositives - high.falsePositives)
  {
    var a, b := low.truePositives, low.falsePositives;
    var c, d := high.truePositives, high.falsePositives;
    DroppedAgainstKept(a, b, c, d);
    if c + d > 0 {
      CrossMultiply(a, a + b, c, c + d);
    } else if a + b > 0 {
      CrossMultiply(a, a + b, 1, 1);
    }
  }

  // ----- Two tiers of one graph

  /** The higher tier drops no located edge, or it makes no claim at all. */
  predicate KeepsClaims<T(==)>(more: set<T>, fewer: set<T>, unlocatable: nat) {
    fewer == more || (fewer == {} && unlocatable == 0)
  }

  lemma KeepingSuffices<T(!new)>(more: set<T>, fewer: set<T>, expected: set<T>, moreUnlocatable: nat,
                                 fewerUnlocatable: nat)
    requires fewer <= more && fewerUnlocatable <= moreUnlocatable && KeepsClaims(more, fewer, fewerUnlocatable)
    ensures CardFor(more, expected, moreUnlocatable).Precision()
         <= CardFor(fewer, expected, fewerUnlocatable).Precision()
  {
    hide Scorecard.Precision;
    var low, high := CardFor(more, expected, moreUnlocatable), CardFor(fewer, expected, fewerUnlocatable);
    CountsTighten(low, high, more, fewer, expected, moreUnlocatable, fewerUnlocatable);
    PrecisionKeptExactly(low, high);
    if fewer != more {
      assert fewer * expected == {} && fewer - expected == {};
    }
  }

  /** Expecting a dropped edge and none of those kept makes precision fall. */
  lemma DroppingShows<T(!new)>(more: set<T>, fewer: set<T>, expected: set<T>, moreUnlocatable: nat,
                               fewerUnlocatable: nat, dropped: T)
    requires fewer <= more && fewerUnlocatable <= moreUnlocatable
    requires dropped in more && dropped in expected && fewer !! expected && (fewer != {} || fewerUnlocatable > 0)
    ensures CardFor(more, expected, moreUnlocatable).Precision()
          > CardFor(fewer, expected, fewerUnlocatable).Precision()
  {
    hide Scorecard.Precision;
    var low, high := CardFor(more, expected, moreUnlocatable), CardFor(fewer, expected, fewerUnlocatable);
    CountsTighten(low, high, more, fewer, expected, moreUnlocatable, fewerUnlocatable);
    PrecisionKeptExactly(low, high);
    assert fewer * expected == {} && fewer - expected == fewer;
    assert dropped in more * expected;
  }

  // ----- Cases scored against an oracle

  ghost predicate KeepsPrecision(graph: CodeGraph, c: Case, scip: SymbolId -> string,
                                 low: Confidence, high: Confidence)
  {
    CardOf(MinConfidence(graph, low), c, scip).Precision() <= CardOf(MinConfidence(graph, high), c, scip).Precision()
  }

  ghost predicate KeepsLocs(graph: CodeGraph, sources: map<string, Source>, scip: SymbolId -> string,
                            low: Confidence, high: Confidence)
  {
    var view, kept := OracleView(graph, sources, scip), KeepAtLeast(graph.edges, high);
    KeepsClaims(EmittedLocs(view, KeepAtLeast(graph.edges, low)), EmittedLocs(view, kept), Unlocatable(view, kept))
  }

  lemma OracleCards(graph: CodeGraph, c: Case, scip: SymbolId -> string, t: Confidence)
    requires c.oracle != []
    ensures var view, edges := OracleView(graph, SourcesOf(c.files), scip), KeepAtLeast(graph.edges, t);
            CardOf(MinConfidence(graph, t), c, scip) ==
            CardFor(EmittedLocs(view, edges), Distinct(c.oracle), Unlocatable(view, edges))
  {
  }

  lemma OracleNeedsLocs(graph: CodeGraph, files: seq<(string, Source)>, scip: SymbolId -> string, low: Confidence,
                        high: Confidence)
    returns (c: Case)
    requires high.AtLeast(low) && !KeepsLocs(graph, SourcesOf(files), scip, low, high)
    ensures c.files == files && c.oracle != [] && !KeepsPrecision(graph, c, scip, low, high)
  {
    hide EmittedLocs, Unlocatable, KeepAtLeast, OracleView, CardOf, Scorecard.Precision;
    var view := OracleView(graph, SourcesOf(files), scip);
    var lowEdges, highEdges := KeepAtLeast(graph.edges, low), KeepAtLeast(graph.edges, high);
    EmittedShrinks(view, graph.edges, low, high);
    UnlocatableShrinks(view, graph.edges, low, high);
    var more, fewer := EmittedLocs(view, lowEdges), EmittedLocs(view, highEdges);
    var dropped :| dropped in more && dropped !in fewer;
    c := Case("", files, [], [dropped]);
    assert Distinct(c.oracle) == {dropped};
    DroppingShows(more, fewer, {dropped}, Unlocatable(view, lowEdges), Unlocatable(view, highEdges), dropped);
    OracleCards(graph, c, scip, low);
    OracleCards(graph, c, scip, high);
  }

  /**
   No oracle over some sources sees precision fall from `low` to `high` exactly when the graph locates the
   same edges at both, or claims nothing at `high`.
   */
  lemma OraclePrecisionExactly(graph: CodeGraph, files: seq<(string, Source)>, scip: SymbolId -> string,
                               low: Confidence, high: Confidence)
    requires high.AtLeast(low)
    ensures (forall c: Case :: c.files == files && c.oracle != [] ==> KeepsPrecision(graph, c, scip, low, high))
            <==> KeepsLocs(graph, SourcesOf(files), scip, low, high)
  {
    hide EmittedLocs, Unlocatable, KeepAtLeast, OracleView, CardOf, Scorecard.Precision, MinConfidence, KeepsClaims;
    if KeepsLocs(graph, SourcesOf(files), scip, low, high) {
      forall c: Case | c.files == files && c.oracle != [] ensures KeepsPrecision(graph, c, scip, low, high) {
        var view := OracleView(graph, SourcesOf(files), scip);
        var lowEdges, highEdges := KeepAtLeast(graph.edges, low), KeepAtLeast(graph.edges, high);
        EmittedShrinks(view, graph.edges, low, high);
        UnlocatableShrinks(view, graph.edges, low, high);
        KeepingSuffices(EmittedLocs(view, lowEdges), EmittedLocs(view, highEdges), Distinct(c.oracle),
                        Unlocatable(view, lowEdges), Unlocatable(view, highEdges));
        OracleCards(graph, c, scip, low);
        OracleCards(graph, c, scip, high);
      }
    } else {
      var c := OracleNeedsLocs(graph, files, scip, low, high);
    }
  }

  // ----- Cases scored against role-typed expectations

  ghost predicate KeepsEdges(graph: CodeGraph, roles: set<RefRole>, scip: SymbolId -> string,
                             low: Confidence, high: Confidence)
  {
    var view, kept := RoleView(graph, roles, scip), KeepAtLeast(graph.edges, high);
    KeepsClaims(Emitted(view, KeepAtLeast(graph.edges, low)), Emitted(view, kept), Unlocatable(view, kept))
  }

  lemma ExpectedCards(graph: CodeGraph, c: Case, scip: SymbolId -> string, t: Confidence)
    requires c.oracle == []
    ensures var view, edges := RoleView(graph, RolesOf(c.expected), scip), KeepAtLeast(graph.edges, t);
            CardOf(MinConfidence(graph, t), c, scip) ==
            CardFor(Emitted(view, edges), Distinct(c.expected), Unlocatable(view, edges))
  {
  }

  lemma {:induction false} LinesBounded(emitted: set<ExpectedEdge>) returns (bound: nat)
    ensures forall x :: x in emitted ==> x.loc.refLine < bound
    decreases |emitted|
  {
    if emitted == {} {
      bound := 0;
    } else {
      var x :| x in emitted;
      bound := LinesBounded(emitted - {x});
      bound := if x.loc.refLine < bound then bound else x.loc.refLine + 1;
    }
  }

  lemma {:induction false} Listing<T>(items: set<T>) returns (listed: seq<T>)
    ensures forall x :: x in listed <==> x in items
    decreases |items|
  {
    if items == {} {
      listed := [];
    } else {
      var x :| x in items;
      var rest := Listing(items - {x});
      listed := [x] + rest;
    }
  }

  /** Expectations that assert exactly `roles` and expect, of all the emitted edges, `dropped` alone. */
  lemma ExpectOnly(emitted: set<ExpectedEdge>, roles: set<RefRole>, dropped: ExpectedEdge)
    returns (expected: seq<ExpectedEdge>)
    requires dropped.role in roles && dropped !in emitted
    ensures RolesOf(expected) == roles && dropped in expected && Distinct(expected) !! emitted
  {
    var bound := LinesBounded(emitted);
    var listed := Listing(roles);
    var nowhere := LocEdge("", bound, "", 0);
    expected := [dropped] + seq(|listed|, i requires 0 <= i < |listed| => ExpectedEdge(nowhere, listed[i]));
    forall r | r in roles ensures r in RolesOf(expected) {
      var i :| 0 <= i < |listed| && listed[i] == r;
      assert expected[i + 1] == ExpectedEdge(nowhere, r);
    }
    assert forall i :: 0 < i < |expected| ==> expected[i] == ExpectedEdge(nowhere, listed[i - 1]);
    assert forall x :: x in expected ==> x == dropped || x.loc == nowhere;
  }

  lemma DroppedIsSeen(view: Scoring, edges: seq<Edge>, x: ExpectedEdge)
    requires view.roles.Some? && x in Emitted(view, edges)
    ensures x.role in view.roles.value
  {
  }

  lemma ExpectedNeedsEdges(graph: CodeGraph, roles: set<RefRole>, scip: SymbolId -> string, low: Confidence,
                           high: Confidence)
    returns (c: Case)
    requires high.AtLeast(low) && !KeepsEdges(graph, roles, scip, low, high)
    ensures c.oracle == [] && !KeepsPrecision(graph, c, scip, low, high)
  {
    hide Emitted, Unlocatable, KeepAtLeast, DefLoc, CardOf, Scorecard.Precision, RolesOf;
    var view := RoleView(graph, roles, scip);
    var lowEdges, highEdges := KeepAtLeast(graph.edges, low), KeepAtLeast(graph.edges, high);
    EmittedShrinks(view, graph.edges, low, high);
    UnlocatableShrinks(view, graph.edges, low, high);
    var more, fewer := Emitted(view, lowEdges), Emitted(view, highEdges);
    var dropped :| dropped in more && dropped !in fewer;
    DroppedIsSeen(view, lowEdges, dropped);
    var expected := ExpectOnly(fewer, roles, dropped);
    c := Case("", [], expected, []);
    DroppingShows(more, fewer, Distinct(expected), Unlocatable(view, lowEdges), Unlocatable(view, highEdges), dropped);
    ExpectedCards(graph, c, scip, low);
    ExpectedCards(graph, c, scip, high);
  }

  /**
   No role-typed expectations see precision fall from `low` to `high` exactly when, for every set of
   roles, the graph locates the same edges of those roles at both, or claims none of them at `high`.
   */
  lemma ExpectedPrecisionExactly(graph: CodeGraph, scip: SymbolId -> string, low: Confidence, high: Confidence)
    requires high.AtLeast(low)
    ensures (forall c: Case :: c.oracle == [] ==> KeepsPrecision(graph, c, scip, low, high))
            <==> forall roles :: KeepsEdges(graph, roles, scip, low, high)
  {
    hide Emitted, Unlocatable, KeepAtLeast, CardOf, Scorecard.Precision, MinConfidence, KeepsClaims, RolesOf, RoleView;
    if forall roles :: KeepsEdges(graph, roles, scip, low, high) {
      forall c: Case | c.oracle == [] ensures KeepsPrecision(graph, c, scip, low, high) {
        assert KeepsEdges(graph, RolesOf(c.expected), scip, low, high);
        var view := RoleView(graph, RolesOf(c.expected), scip);
        var lowEdges, highEdges := KeepAtLeast(graph.edges, low), KeepAtLeast(graph.edges, high);
        EmittedShrinks(view, graph.edges, low, high);
        UnlocatableShrinks(view, graph.edges, low, high);
        KeepingSuffices(Emitted(view, lowEdges), Emitted(view, highEdges), Distinct(c.expected),
                        Unlocatable(view, lowEdges), Unlocatable(view, highEdges));
        ExpectedCards(graph, c, scip, low);
        ExpectedCards(graph, c, scip, high);
      }
    } else {
      var roles :| !KeepsEdges(graph, roles, scip, low, high);
      var c := ExpectedNeedsEdges(graph, roles, scip, low, high);
    }
  }

  // ----- A graph on which it falls

  /** A right guess and a wrong certainty about one symbol. */
  function RightGuess(s: Symbol): Edge {
    Edge(s.id, s.id, Call, Heuristic, SymbolTable, Occurrence(s.file, 1, 0, 0))
  }

  function WrongCertainty(s: Symbol): Edge {
    Edge(s.id, s.id, Call, Exact, SymbolTable, Occurrence(s.file, 2, 0, 0))
  }

  lemma OneSymbolLocates(s: Symbol, scip: SymbolId -> string, e: Edge, edges: seq<Edge>)
    requires e.to == s.id
    ensures var view := OracleView(CodeGraph([s], edges), map[], scip);
            && view.Sees(e) && view.Target(e) == Some((s.file, s.line))
            && view.Located(e) == LocEdge(e.occ.file, e.occ.line, s.file, s.line)
  {
    hide LocalDefLoc;
    assert [s][..0] == [];
    assert DefLoc([], scip) == map[];
    assert DefLoc([s], scip) == map[scip(s.id) := (s.file, s.line)];
  }

  lemma TwoEdgesKept(a: Edge, b: Edge)
    requires a.confidence == Heuristic && b.confidence == Exact
    ensures KeepAtLeast([a, b], Heuristic) == [a, b] && KeepAtLeast([a, b], Exact) == [b]
  {
    assert [a, b][..1] == [a] && [a][..0] == [];
    assert KeepAtLeast([a], Heuristic) == [a] && KeepAtLeast([a], Exact) == [];
  }

  lemma LocatesTwo(view: Scoring, a: Edge, b: Edge)
    requires view.Sees(a) && view.Sees(b) && view.Target(a).Some? && view.Target(b).Some?
    ensures EmittedLocs(view, [a, b]) == {view.Located(a), view.Located(b)}
    ensures EmittedLocs(view, [b]) == {view.Located(b)}
    ensures Unlocatable(view, [a, b]) == 0 && Unlocatable(view, [b]) == 0
  {
    assert a in [a, b] && b in [a, b] && b in [b];
    assert [a, b][..1] == [a] && [a][..0] == [] && [b][..0] == [];
    assert Unlocatable(view, []) == 0 && Unlocatable(view, [a]) == 0;
  }

  /** Dropping the guess drops the precision from one half to nothing. */
  lemma PrecisionCanFall(s: Symbol, scip: SymbolId -> string, low: Scorecard, high: Scorecard)
    requires var graph := CodeGraph([s], [RightGuess(s), WrongCertainty(s)]);
             var view := OracleView(graph, map[], scip);
             var oracle := {LocEdge(s.file, 1, s.file, s.line)};
             && Counts(low, EmittedLocs(view, KeepAtLeast(graph.edges, Heuristic)), oracle,
                       Unlocatable(view, KeepAtLeast(graph.edges, Heuristic)))
             && Counts(high, EmittedLocs(view, KeepAtLeast(graph.edges, Exact)), oracle,
                       Unlocatable(view, KeepAtLeast(graph.edges, Exact)))
    ensures low.Precision() == 0.5 && high.Precision() == 0.0
  {
    hide DefLoc, EmittedLocs, Unlocatable, KeepAtLeast, Scoring.Target, Scoring.Sees, Scoring.Located;
    var right, wrong := RightGuess(s), WrongCertainty(s);
    var view := OracleView(CodeGraph([s], [right, wrong]), map[], scip);
    var good, bad := LocEdge(s.file, 1, s.file, s.line), LocEdge(s.file, 2, s.file, s.line);
    OneSymbolLocates(s, scip, right, [right, wrong]);
    OneSymbolLocates(s, scip, wrong, [right, wrong]);
    TwoEdgesKept(right, wrong);
    LocatesTwo(view, right, wrong);
    assert {good, bad} * {good} == {good} && {good, bad} - {good} == {bad};
    assert {bad} * {good} == {} && {bad} - {good} == {bad};
  }
}
