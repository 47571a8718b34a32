/**
 Scoring whole corpora: one case, the cases of one language, and everything, plain and by
 confidence tier. Extraction and resolution are parameters.
 */
module Runner {
  import opened Graph
  import opened Lines
  import opened Score
  import opened Repeats
  import opened Fold

  datatype Case = Case(
    lang: string,
    files: seq<(string, Source)>,
    expected: seq<ExpectedEdge>,
    oracle: seq<LocEdge>)

  /** The sources of a case by path; a later file wins. */
  function SourcesOf(files: seq<(string, Source)>): map<string, Source> {
    if files == [] then map[] else
      var last := |files| - 1;
      SourcesOf(files[..last])[files[last].0 := files[last].1]
  }

  /** A path is known exactly when some file has it, with the source of the last such file. */
  lemma {:induction false} LastSourceWins(files: seq<(string, Source)>, path: string)
    ensures path in SourcesOf(files) <==> exists i :: 0 <= i < |files| && files[i].0 == path
    ensures forall i :: 0 <= i < |files| && files[i].0 == path
                        && (forall j :: i < j < |files| ==> files[j].0 != path) ==>
              path in SourcesOf(files) && SourcesOf(files)[path] == files[i].1
  {
    if files == [] {
    } else {
      var last := |files| - 1;
      LastSourceWins(files[..last], path);
      assert forall i :: 0 <= i < last ==> files[..last][i] == files[i];
      if i :| 0 <= i < |files| && files[i].0 == path && i < last {
        assert files[..last][i].0 == path;
      }
    }
  }

  // ----- One case

  /** The scorecard that the oracle, or else the role-typed expectations, of a case assign to a graph. */
  ghost predicate IsCardOf(card: Scorecard, graph: CodeGraph, c: Case, scip: SymbolId -> string) {
    if c.oracle != [] then
      var view := OracleView(graph, SourcesOf(c.files), scip);
      Counts(card, EmittedLocs(view, graph.edges), Distinct(c.oracle), Unlocatable(view, graph.edges))
    else
      var view := RoleView(graph, RolesOf(c.expected), scip);
      Counts(card, Emitted(view, graph.edges), Distinct(c.expected), Unlocatable(view, graph.edges))
  }

  ghost function CardOf(graph: CodeGraph, c: Case, scip: SymbolId -> string): (card: Scorecard)
    ensures IsCardOf(card, graph, c, scip)
  {
    if c.oracle != [] then
      var view := OracleView(graph, SourcesOf(c.files), scip);
      CardFor(EmittedLocs(view, graph.edges), Distinct(c.oracle), Unlocatable(view, graph.edges))
    else
      var view := RoleView(graph, RolesOf(c.expected), scip);
      CardFor(Emitted(view, graph.edges), Distinct(c.expected), Unlocatable(view, graph.edges))
  }

  method ScoreGraphForCase(graph: CodeGraph, c: Case, scip: SymbolId -> string) returns (card: Scorecard)
    ensures card == CardOf(graph, c, scip)
  {
    hide EmittedLocs, Emitted, Unlocatable, Distinct, OracleView, RoleView;
    if c.oracle != [] {
      card := ScoreOracle(graph, c.oracle, SourcesOf(c.files), scip);
    } else {
      card := ScoreExpected(graph, c.expected, scip);
    }
  }

  // ----- The four tiers of one case

  datatype TieredScorecard = TieredScorecard(
    heuristic: Scorecard,
    nameOnly: Scorecard,
    scoped: Scorecard,
    exact: Scorecard)
  {
    function Merge(other: TieredScorecard): TieredScorecard {
      TieredScorecard(heuristic.Merge(other.heuristic), nameOnly.Merge(other.nameOnly),
                      scoped.Merge(other.scoped), exact.Merge(other.exact))
    }

    /** Each tier claims less and misses more than the one before. */
    ghost predicate Graded() {
      Tightens(heuristic, nameOnly) && Tightens(nameOnly, scoped) && Tightens(scoped, exact)
    }
  }

  const NO_TIERED_SCORE := TieredScorecard(NO_SCORE, NO_SCORE, NO_SCORE, NO_SCORE)

  ghost function TieredCardOf(graph: CodeGraph, c: Case, scip: SymbolId -> string): TieredScorecard {
    TieredScorecard(
      CardOf(MinConfidence(graph, Heuristic), c, scip), CardOf(MinConfidence(graph, NameOnly), c, scip),
      CardOf(MinConfidence(graph, Scoped), c, scip), CardOf(MinConfidence(graph, Exact), c, scip))
  }

  method ScoreCaseTiered(graph: CodeGraph, c: Case, scip: SymbolId -> string) returns (card: TieredScorecard)
    ensures card == TieredCardOf(graph, c, scip)
  {
    hide CardOf;
    var heuristic := ScoreGraphForCase(MinConfidence(graph, Heuristic), c, scip);
    var nameOnly := ScoreGraphForCase(MinConfidence(graph, NameOnly), c, scip);
    var scoped := ScoreGraphForCase(MinConfidence(graph, Scoped), c, scip);
    var exact := ScoreGraphForCase(MinConfidence(graph, Exact), c, scip);
    card := TieredScorecard(heuristic, nameOnly, scoped, exact);
  }

  /** Raising the threshold never claims more and never misses less, whichever scorer applies. */
  lemma TierTightens(graph: CodeGraph, c: Case, scip: SymbolId -> string, low: Confidence, high: Confidence)
    requires high.AtLeast(low)
    ensures Tightens(CardOf(MinConfidence(graph, low), c, scip), CardOf(MinConfidence(graph, high), c, scip))
  {
    hide CardOf, EmittedLocs, Emitted, Unlocatable, Counts, Tightens, KeepAtLeast, DefLoc;
    var cardLow, cardHigh := CardOf(MinConfidence(graph, low), c, scip), CardOf(MinConfidence(graph, high), c, scip);
    var edgesLow, edgesHigh := KeepAtLeast(graph.edges, low), KeepAtLeast(graph.edges, high);
    if c.oracle != [] {
      var view := OracleView(graph, SourcesOf(c.files), scip);
      EmittedShrinks(view, graph.edges, low, high);
      UnlocatableShrinks(view, graph.edges, low, high);
      CountsTighten(cardLow, cardHigh, EmittedLocs(view, edgesLow), EmittedLocs(view, edgesHigh), Distinct(c.oracle),
                    Unlocatable(view, edgesLow), Unlocatable(view, edgesHigh));
    } else {
      var view := RoleView(graph, RolesOf(c.expected), scip);
      EmittedShrinks(view, graph.edges, low, high);
      UnlocatableShrinks(view, graph.edges, low, high);
      CountsTighten(cardLow, cardHigh, Emitted(view, edgesLow), Emitted(view, edgesHigh), Distinct(c.expected),
                    Unlocatable(view, edgesLow), Unlocatable(view, edgesHigh));
    }
  }

  lemma CaseIsGraded(graph: CodeGraph, c: Case, scip: SymbolId -> string)
    ensures TieredCardOf(graph, c, scip).Graded()
  {
    hide CardOf, IsCardOf, Tightens, MinConfidence;
    TierTightens(graph, c, scip, Heuristic, NameOnly);
    TierTightens(graph, c, scip, NameOnly, Scoped);
    TierTightens(graph, c, scip, Scoped, Exact);
  }

  /** In a graded card, recall falls from tier to tier. */
  lemma GradedRecall(t: TieredScorecard)
    requires t.Graded()
    ensures t.exact.Recall() <= t.scoped.Recall() <= t.nameOnly.Recall() <= t.heuristic.Recall()
  {
    hide Tightens;
    TightensRecall(t.heuristic, t.nameOnly);
    TightensRecall(t.nameOnly, t.scoped);
    TightensRecall(t.scoped, t.exact);
  }

  // ----- Many cases

  const MERGE_CARDS := (a: Scorecard, b: Scorecard) => a.Merge(b)
  const MERGE_TIERED := (a: TieredScorecard, b: TieredScorecard) => a.Merge(b)
  const LANG_OF := (c: Case) => c.lang

  /** What a case is worth, once `resolve` has built its graph. */
  ghost function Worth(resolve: Case -> CodeGraph, scip: SymbolId -> string): Case -> Scorecard {
    (c: Case) => CardOf(resolve(c), c, scip)
  }

  ghost function TieredWorth(resolve: Case -> CodeGraph, scip: SymbolId -> string): Case -> TieredScorecard {
    (c: Case) => TieredCardOf(resolve(c), c, scip)
  }

  lemma CardsMerge()
    ensures Mergeable(MERGE_CARDS, NO_SCORE)
  {
  }

  /** The cards of one tier merge like plain cards. */
  lemma TierByTier()
    requires Mergeable(MERGE_CARDS, NO_SCORE)
    ensures forall x: Scorecard :: NO_SCORE.Merge(x) == x && x.Merge(NO_SCORE) == x
    ensures forall x: Scorecard, y: Scorecard :: x.Merge(y) == y.Merge(x)
    ensures forall x: Scorecard, y: Scorecard, z: Scorecard :: x.Merge(y).Merge(z) == x.Merge(y.Merge(z))
  {
  }

  lemma TieredCardsMerge()
    ensures Mergeable(MERGE_TIERED, NO_TIERED_SCORE)
  {
    hide Scorecard.Merge;
    CardsMerge();
    TierByTier();
  }

  method CorpusTotal(cases: seq<Case>, resolve: Case -> CodeGraph, scip: SymbolId -> string) returns (total: Scorecard)
    ensures total == Total(cases, Worth(resolve, scip), MERGE_CARDS, NO_SCORE)
  {
    hide CardOf;
    total := NO_SCORE;
    for i := 0 to |cases|
      invariant total == Total(cases[..i], Worth(resolve, scip), MERGE_CARDS, NO_SCORE)
    {
      TotalNext(cases[..i], cases[i], Worth(resolve, scip), MERGE_CARDS, NO_SCORE);
      assert cases[..i + 1] == cases[..i] + [cases[i]];
      var card := ScoreGraphForCase(resolve(cases[i]), cases[i], scip);
      total := total.Merge(card);
    }
    assert cases[..|cases|] == cases;
  }

  method CorpusTotalTiered(cases: seq<Case>, resolve: Case -> CodeGraph, scip: SymbolId -> string)
    returns (total: TieredScorecard)
    ensures total == Total(cases, TieredWorth(resolve, scip), MERGE_TIERED, NO_TIERED_SCORE)
  {
    hide TieredCardOf;
    total := NO_TIERED_SCORE;
    for i := 0 to |cases|
      invariant total == Total(cases[..i], TieredWorth(resolve, scip), MERGE_TIERED, NO_TIERED_SCORE)
    {
      TotalNext(cases[..i], cases[i], TieredWorth(resolve, scip), MERGE_TIERED, NO_TIERED_SCORE);
      assert cases[..i + 1] == cases[..i] + [cases[i]];
      var card := ScoreCaseTiered(resolve(cases[i]), cases[i], scip);
      total := total.Merge(card);
    }
    assert cases[..|cases|] == cases;
  }

  method PerLanguage(cases: seq<Case>, resolve: Case -> CodeGraph, scip: SymbolId -> string)
    returns (byLang: map<string, Scorecard>)
    ensures IsGrouped(byLang, cases, LANG_OF, Worth(resolve, scip), MERGE_CARDS, NO_SCORE)
  {
    hide CardOf, IsCardOf, Counts, Total, Only, IsGrouped, Scorecard.Merge;
    byLang := map[];
    GroupedEmpty(LANG_OF, Worth(resolve, scip), MERGE_CARDS, NO_SCORE);
    for i := 0 to |cases|
      invariant IsGrouped(byLang, cases[..i], LANG_OF, Worth(resolve, scip), MERGE_CARDS, NO_SCORE)
    {
      GroupedNext(byLang, cases[..i], cases[i], LANG_OF, Worth(resolve, scip), MERGE_CARDS, NO_SCORE);
      assert cases[..i + 1] == cases[..i] + [cases[i]];
      var lang := cases[i].lang;
      var entry := if lang in byLang then byLang[lang] else NO_SCORE;
      var card := ScoreGraphForCase(resolve(cases[i]), cases[i], scip);
      byLang := byLang[lang := entry.Merge(card)];
    }
    assert cases[..|cases|] == cases;
  }

  method PerLanguageTiered(cases: seq<Case>, resolve: Case -> CodeGraph, scip: SymbolId -> string)
    returns (byLang: map<string, TieredScorecard>)
    ensures IsGrouped(byLang, cases, LANG_OF, TieredWorth(resolve, scip), MERGE_TIERED, NO_TIERED_SCORE)
  {
    hide TieredCardOf, Total, Only, IsGrouped, TieredScorecard.Merge;
    byLang := map[];
    GroupedEmpty(LANG_OF, TieredWorth(resolve, scip), MERGE_TIERED, NO_TIERED_SCORE);
    for i := 0 to |cases|
      invariant IsGrouped(byLang, cases[..i], LANG_OF, TieredWorth(resolve, scip), MERGE_TIERED, NO_TIERED_SCORE)
    {
      GroupedNext(byLang, cases[..i], cases[i], LANG_OF, TieredWorth(resolve, scip), MERGE_TIERED, NO_TIERED_SCORE);
      assert cases[..i + 1] == cases[..i] + [cases[i]];
      var lang := cases[i].lang;
      var entry := if lang in byLang then byLang[lang] else NO_TIERED_SCORE;
      var card := ScoreCaseTiered(resolve(cases[i]), cases[i], scip);
      byLang := byLang[lang := entry.Merge(card)];
    }
    assert cases[..|cases|] == cases;
  }

  // ----- What the aggregates mean

  /** The corpus total is the merge of the language entries, in any order and for any order of the cases. */
  lemma CorpusIsMergeOfLanguages(cases: seq<Case>, shuffled: seq<Case>, resolve: Case -> CodeGraph,
                                 scip: SymbolId -> string, byLang: map<string, Scorecard>, langs: seq<string>)
    requires multiset(shuffled) == multiset(cases)
    requires IsGrouped(byLang, shuffled, LANG_OF, Worth(resolve, scip), MERGE_CARDS, NO_SCORE)
    requires NoRepeats(langs) && forall k :: k in langs <==> k in byLang
    ensures Total(langs, EntryOf(byLang, NO_SCORE), MERGE_CARDS, NO_SCORE)
         == Total(cases, Worth(resolve, scip), MERGE_CARDS, NO_SCORE)
  {
    hide CardOf, Total, Only, IsGrouped, Mergeable;
    CardsMerge();
    GroupsMergeToTotal(byLang, cases, shuffled, langs, LANG_OF, Worth(resolve, scip), MERGE_CARDS, NO_SCORE);
  }

  lemma TieredCorpusIsMergeOfLanguages(cases: seq<Case>, shuffled: seq<Case>, resolve: Case -> CodeGraph,
                                       scip: SymbolId -> string, byLang: map<string, TieredScorecard>,
                                       langs: seq<string>)
    requires multiset(shuffled) == multiset(cases)
    requires IsGrouped(byLang, shuffled, LANG_OF, TieredWorth(resolve, scip), MERGE_TIERED, NO_TIERED_SCORE)
    requires NoRepeats(langs) && forall k :: k in langs <==> k in byLang
    ensures Total(langs, EntryOf(byLang, NO_TIERED_SCORE), MERGE_TIERED, NO_TIERED_SCORE)
         == Total(cases, TieredWorth(resolve, scip), MERGE_TIERED, NO_TIERED_SCORE)
  {
    hide CardOf, Total, Only, IsGrouped, Mergeable;
    TieredCardsMerge();
    GroupsMergeToTotal(byLang, cases, shuffled, langs, LANG_OF, TieredWorth(resolve, scip), MERGE_TIERED,
                       NO_TIERED_SCORE);
  }

  lemma NothingIsGraded()
    ensures NO_TIERED_SCORE.Graded()
  {
  }

  /** Merging keeps each tier within the one before. */
  lemma MergeGraded(t: TieredScorecard, u: TieredScorecard)
    requires t.Graded() && u.Graded()
    ensures t.Merge(u).Graded()
  {
    hide Tightens, Scorecard.Merge;
    MergeTightens(t.heuristic, t.nameOnly, u.heuristic, u.nameOnly);
    MergeTightens(t.nameOnly, t.scoped, u.nameOnly, u.scoped);
    MergeTightens(t.scoped, t.exact, u.scoped, u.exact);
  }

  /** The tiers stay graded in every aggregate. */
  lemma {:induction false} AggregatesAreGraded(cases: seq<Case>, resolve: Case -> CodeGraph, scip: SymbolId -> string)
    ensures Total(cases, TieredWorth(resolve, scip), MERGE_TIERED, NO_TIERED_SCORE).Graded()
  {
    hide TieredCardOf, TieredScorecard.Graded;
    if cases == [] {
      NothingIsGraded();
    } else {
      var last := |cases| - 1;
      AggregatesAreGraded(cases[..last], resolve, scip);
      CaseIsGraded(resolve(cases[last]), cases[last], scip);
      MergeGraded(Total(cases[..last], TieredWorth(resolve, scip), MERGE_TIERED, NO_TIERED_SCORE),
                  TieredCardOf(resolve(cases[last]), cases[last], scip));
    }
  }

  lemma LanguagesAreGraded(cases: seq<Case>, resolve: Case -> CodeGraph, scip: SymbolId -> string,
                           byLang: map<string, TieredScorecard>)
    requires IsGrouped(byLang, cases, LANG_OF, TieredWorth(resolve, scip), MERGE_TIERED, NO_TIERED_SCORE)
    ensures forall k :: k in byLang ==> byLang[k].Graded()
  {
    hide TieredScorecard.Graded;
    forall k | k in byLang ensures byLang[k].Graded() {
      AggregatesAreGraded(Only(cases, LANG_OF, k), resolve, scip);
    }
  }

  /** The graphs of a corpus with the edges below a threshold dropped. */
  ghost function AtTier(resolve: Case -> CodeGraph, threshold: Confidence): Case -> CodeGraph {
    (c: Case) => MinConfidence(resolve(c), threshold)
  }

  /** Each tier of an aggregate is the plain aggregate of the graphs cut at that tier. */
  lemma {:induction false} TiersArePlain(cases: seq<Case>, resolve: Case -> CodeGraph, scip: SymbolId -> string)
    ensures var tiered := Total(cases, TieredWorth(resolve, scip), MERGE_TIERED, NO_TIERED_SCORE);
            && tiered.heuristic == Total(cases, Worth(AtTier(resolve, Heuristic), scip), MERGE_CARDS, NO_SCORE)
            && tiered.nameOnly == Total(cases, Worth(AtTier(resolve, NameOnly), scip), MERGE_CARDS, NO_SCORE)
            && tiered.scoped == Total(cases, Worth(AtTier(resolve, Scoped), scip), MERGE_CARDS, NO_SCORE)
            && tiered.exact == Total(cases, Worth(AtTier(resolve, Exact), scip), MERGE_CARDS, NO_SCORE)
  {
    hide CardOf, MinConfidence;
    if cases == [] {
    } else {
      TiersArePlain(cases[..|cases| - 1], resolve, scip);
    }
  }

  /** The lowest tier of every aggregate is the plain aggregate of the same graphs. */
  lemma {:induction false} LowestTierIsPlain(cases: seq<Case>, resolve: Case -> CodeGraph, scip: SymbolId -> string)
    ensures Total(cases, TieredWorth(resolve, scip), MERGE_TIERED, NO_TIERED_SCORE).heuristic
         == Total(cases, Worth(resolve, scip), MERGE_CARDS, NO_SCORE)
  {
    hide CardOf;
    if cases == [] {
    } else {
      var last := |cases| - 1;
      LowestTierIsPlain(cases[..last], resolve, scip);
      HeuristicKeepsAll(resolve(cases[last]).edges);
    }
  }
}
