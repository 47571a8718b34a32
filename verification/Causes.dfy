/**
 The causes of missed edges over a corpus: the diagnoses of the real repositories, merged by language,
 against the scorecards of the same cases.
 */
module Causes {
  import opened Graph
  import opened Score
  import opened Fold
  import opened Runner
  import opened Diagnose

  /** Language directories of real repositories carry this word. */
  const REAL_REPO := "realrepo"

  predicate ContainsWord(s: string, word: string) {
    word <= s || (s != "" && ContainsWord(s[1..], word))
  }

  lemma {:induction false} ContainsWordMeans(s: string, word: string)
    ensures ContainsWord(s, word) <==> exists front, back :: s == front + word + back
  {
    if word <= s {
      assert s == "" + word + s[|word|..];
    } else if s == "" {
    } else {
      ContainsWordMeans(s[1..], word);
      if front, back :| s[1..] == front + word + back {
        assert s == ([s[0]] + front) + word + back;
      }
      if front, back :| s == front + word + back {
        assert front != "" by {
          assert word <= "" + word + back;
        }
        assert s[1..] == front[1..] + word + back;
      }
    }
  }

  /** The cases that are diagnosed: real repositories with an oracle. */
  predicate IsDiagnosed(c: Case) {
    ContainsWord(c.lang, REAL_REPO) && c.oracle != []
  }

  function Diagnosed(cases: seq<Case>): seq<Case> {
    if cases == [] then [] else
      var last := |cases| - 1;
      Diagnosed(cases[..last]) + if IsDiagnosed(cases[last]) then [cases[last]] else []
  }

  lemma {:induction false} DiagnosedContains(cases: seq<Case>, c: Case)
    ensures c in Diagnosed(cases) <==> c in cases && IsDiagnosed(c)
  {
    if cases == [] {
    } else {
      var last := |cases| - 1;
      DiagnosedContains(cases[..last], c);
      assert cases == cases[..last] + [cases[last]];
    }
  }

  /** The diagnosed cases are those with an oracle whose language names a real repository. */
  lemma DiagnosedMeans(cases: seq<Case>, c: Case)
    ensures c in Diagnosed(cases) <==>
            c in cases && c.oracle != [] && exists front, back :: c.lang == front + "realrepo" + back
  {
    DiagnosedContains(cases, c);
    ContainsWordMeans(c.lang, REAL_REPO);
  }

  lemma DiagnosedNext(cases: seq<Case>, i: nat)
    requires i < |cases|
    ensures Diagnosed(cases[..i + 1]) ==
            if IsDiagnosed(cases[i]) then Diagnosed(cases[..i]) + [cases[i]] else Diagnosed(cases[..i])
  {
    hide IsDiagnosed;
    assert cases[..i + 1][..i] == cases[..i];
  }

  lemma NoneDiagnosed()
    ensures Diagnosed([]) == []
  {
  }

  // ----- One case

  /** What a diagnosis of a case looks at, once its graph and its references are known. */
  function EvidenceOf(c: Case, resolve: Case -> CodeGraph, refsOf: Case -> seq<Ref>, scip: SymbolId -> string)
    : Evidence
  {
    Evidence(resolve(c), refsOf(c), SourcesOf(c.files), scip)
  }

  /** Diagnose one case; a case without an oracle has no diagnosis. */
  method DiagnoseCase(c: Case, resolve: Case -> CodeGraph, refsOf: Case -> seq<Ref>, scip: SymbolId -> string)
    returns (d: Option<RecallDiagnosis>)
    ensures d == if c.oracle == [] then None
                 else Some(DiagnosisOf(EvidenceOf(c, resolve, refsOf, scip), Distinct(c.oracle)))
  {
    hide DiagnosisOf;
    if c.oracle == [] {
      return None;
    }
    var diagnosis := DiagnoseRecall(resolve(c), refsOf(c), c.oracle, SourcesOf(c.files), scip);
    d := Some(diagnosis);
  }

  // ----- Many cases

  const MERGE_DIAGNOSES := (d: RecallDiagnosis, e: RecallDiagnosis) => d.Merge(e)

  /** The diagnosis each case contributes. */
  ghost function Findings(resolve: Case -> CodeGraph, refsOf: Case -> seq<Ref>, scip: SymbolId -> string)
    : Case -> RecallDiagnosis
  {
    (c: Case) => DiagnosisOf(EvidenceOf(c, resolve, refsOf, scip), Distinct(c.oracle))
  }

  method DiagnosePerLanguage(cases: seq<Case>, resolve: Case -> CodeGraph, refsOf: Case -> seq<Ref>,
                             scip: SymbolId -> string)
    returns (byLang: map<string, RecallDiagnosis>)
    ensures IsGrouped(byLang, Diagnosed(cases), LANG_OF, Findings(resolve, refsOf, scip), MERGE_DIAGNOSES,
                      NOTHING_MISSED)
  {
    hide DiagnosisOf, EvidenceOf, IsGrouped, Total, Only, RecallDiagnosis.Merge, ContainsWord, Diagnosed;
    byLang := map[];
    NoneDiagnosed();
    GroupedEmpty(LANG_OF, Findings(resolve, refsOf, scip), MERGE_DIAGNOSES, NOTHING_MISSED);
    for i := 0 to |cases|
      invariant IsGrouped(byLang, Diagnosed(cases[..i]), LANG_OF, Findings(resolve, refsOf, scip), MERGE_DIAGNOSES,
                          NOTHING_MISSED)
    {
      DiagnosedNext(cases, i);
      if !ContainsWord(cases[i].lang, REAL_REPO) {
        continue;
      }
      var d := DiagnoseCase(cases[i], resolve, refsOf, scip);
      if d.Some? {
        GroupedNext(byLang, Diagnosed(cases[..i]), cases[i], LANG_OF, Findings(resolve, refsOf, scip),
                    MERGE_DIAGNOSES, NOTHING_MISSED);
        var lang := cases[i].lang;
        var entry := if lang in byLang then byLang[lang] else NOTHING_MISSED;
        byLang := byLang[lang := entry.Merge(d.value)];
      }
    }
    assert cases[..|cases|] == cases;
  }

  // ----- What the merged diagnoses mean

  /** Merged diagnoses stay balanced. */
  lemma {:induction false} MergedIsBalanced(cases: seq<Case>, resolve: Case -> CodeGraph, refsOf: Case -> seq<Ref>,
                                            scip: SymbolId -> string)
    ensures Total(cases, Findings(resolve, refsOf, scip), MERGE_DIAGNOSES, NOTHING_MISSED).Balanced()
  {
    hide DiagnosisOf, EvidenceOf, RecallDiagnosis.Balanced, RecallDiagnosis.Merge;
    if cases == [] {
      NothingBalances();
    } else {
      var last := |cases| - 1;
      var c := cases[last];
      MergedIsBalanced(cases[..last], resolve, refsOf, scip);
      DiagnosisIsBalanced(EvidenceOf(c, resolve, refsOf, scip), Distinct(c.oracle));
      MergeKeepsBalance(Total(cases[..last], Findings(resolve, refsOf, scip), MERGE_DIAGNOSES, NOTHING_MISSED),
                        Findings(resolve, refsOf, scip)(c));
    }
  }

  /** The misses merged over cases with an oracle are the false negatives that the scorer counts on them. */
  lemma {:induction false} MergedMisses(cases: seq<Case>, resolve: Case -> CodeGraph, refsOf: Case -> seq<Ref>,
                                        scip: SymbolId -> string)
    requires forall c :: c in cases ==> c.oracle != []
    ensures Total(cases, Findings(resolve, refsOf, scip), MERGE_DIAGNOSES, NOTHING_MISSED).missed
         == Total(cases, Worth(resolve, scip), MERGE_CARDS, NO_SCORE).falseNegatives
  {
    hide DiagnosisOf, EmittedLocs, Unlocatable, OracleView, RoleView, CardOf, Counts, Emitted;
    if cases == [] {
    } else {
      var last := |cases| - 1;
      var c := cases[last];
      MergedMisses(cases[..last], resolve, refsOf, scip);
      MissedIsFalseNegatives(resolve(c), refsOf(c), c.oracle, SourcesOf(c.files), scip, CardOf(resolve(c), c, scip));
    }
  }

  lemma DiagnosedHasOracle(cases: seq<Case>, c: Case)
    requires c in Diagnosed(cases)
    ensures c.oracle != []
  {
    DiagnosedContains(cases, c);
  }

  /**
   Every language's diagnosis is balanced, and misses exactly what the scorecards of its diagnosed cases
   count as false negatives.
   */
  lemma LanguagesAreDiagnosed(cases: seq<Case>, resolve: Case -> CodeGraph, refsOf: Case -> seq<Ref>,
                              scip: SymbolId -> string, byLang: map<string, RecallDiagnosis>)
    requires IsGrouped(byLang, Diagnosed(cases), LANG_OF, Findings(resolve, refsOf, scip), MERGE_DIAGNOSES,
                       NOTHING_MISSED)
    ensures forall k :: k in byLang ==>
              && byLang[k].Balanced()
              && byLang[k].missed ==
                 Total(Only(Diagnosed(cases), LANG_OF, k), Worth(resolve, scip), MERGE_CARDS, NO_SCORE).falseNegatives
  {
    hide Total, Only, RecallDiagnosis.Balanced, Diagnosed, IsDiagnosed;
    forall k | k in byLang
      ensures byLang[k].Balanced()
      ensures byLang[k].missed ==
              Total(Only(Diagnosed(cases), LANG_OF, k), Worth(resolve, scip), MERGE_CARDS, NO_SCORE).falseNegatives
    {
      var group := Only(Diagnosed(cases), LANG_OF, k);
      MergedIsBalanced(group, resolve, refsOf, scip);
      forall c | c in group ensures c.oracle != [] {
        OnlyContains(Diagnosed(cases), LANG_OF, k, c);
        DiagnosedHasOracle(cases, c);
      }
      MergedMisses(group, resolve, refsOf, scip);
    }
  }
}
