/**
 The sampler of structural misses. It repeats the first steps of the diagnosis in a loop of its
 own, stops early, and must still agree with the diagnosis's counter.
 */
module Samples {
  import opened Order
  import opened Graph
  import opened Lines
  import opened Texts
  import opened Score
  import opened Diagnose

  // ----- The order of oracle edges

  function CompareNat(x: nat, y: nat): Ordering { CompareInt(x, y) }

  /** Field by field, in declaration order. */
  function CompareLoc(x: LocEdge, y: LocEdge): Ordering {
    CompareString(x.refFile, y.refFile).Then(CompareNat(x.refLine, y.refLine)).Then(
      CompareString(x.defFile, y.defFile).Then(CompareNat(x.defLine, y.defLine)))
  }

  function LocKey(x: LocEdge): ((string, nat), (string, nat)) {
    ((x.refFile, x.refLine), (x.defFile, x.defLine))
  }

  lemma LocsTotallyOrdered()
    ensures TotalOrder(CompareLoc)
  {
    hide CompareString;
    StringsTotallyOrdered();
    var site := Lex(CompareString, CompareNat);
    LexTotal(CompareString, CompareNat);
    LexTotal(site, site);
    forall x: LocEdge, y: LocEdge ensures CompareLoc(x, y) == Lex(site, site)(LocKey(x), LocKey(y)) {
      assert site(LocKey(x).0, LocKey(y).0) ==
             CompareString(x.refFile, y.refFile).Then(CompareNat(x.refLine, y.refLine));
      assert site(LocKey(x).1, LocKey(y).1) ==
             CompareString(x.defFile, y.defFile).Then(CompareNat(x.defLine, y.defLine));
    }
    PullbackTotal(CompareLoc, LocKey, Lex(site, site));
  }

  /** By reference file and line, then definition file and line, each where all before it agree. */
  lemma LocsOrderedByCoordinates(x: LocEdge, y: LocEdge)
    ensures CompareLoc(x, y) == Less <==>
            || CompareString(x.refFile, y.refFile) == Less
            || (x.refFile == y.refFile &&
                (|| x.refLine < y.refLine
                 || (x.refLine == y.refLine &&
                     (|| CompareString(x.defFile, y.defFile) == Less
                      || (x.defFile == y.defFile && x.defLine < y.defLine)))))
  {
    hide CompareString;
    StringsTotallyOrdered();
  }

  function SortedLocs(xs: set<LocEdge>): (r: seq<LocEdge>)
    ensures TotalOrder(CompareLoc) && Sorted(r, CompareLoc)
    ensures |r| == |xs| && forall x :: x in r <==> x in xs
  {
    LocsTotallyOrdered();
    SortedSeq(xs, CompareLoc)
  }

  // ----- What the sampler returns

  ghost function StructuralMisses(v: Evidence, xs: set<LocEdge>): set<LocEdge> {
    set x | x in xs && CauseOf(v, x) == DefStructural
  }

  /** The misses that are not defined nearby and do not start in a body, stated without the cascade. */
  lemma StructuralMissesMean(v: Evidence, xs: set<LocEdge>)
    ensures StructuralMisses(v, xs) ==
            StructuralSet(v, xs)
  {
    hide EmittedLocs, CauseOf, EmittedNearby, DefinedNearby, StartsInBody, EmittedFrom, Captured, CapturedSelf,
         CapturedQualifier, CapturedImport;
    forall x | x in xs {
      CauseMeans(v, x);
    }
  }

  /** The first structural misses, in order of the oracle edge. */
  ghost function FirstMisses(v: Evidence, xs: set<LocEdge>, limit: nat): seq<LocEdge> {
    Take(SortedLocs(StructuralMisses(v, xs)), limit)
  }

  /** The extracted references play no part in a structural miss. */
  lemma RefsDoNotMatter(v: Evidence, refs: seq<Ref>, x: LocEdge)
    ensures CauseOf(v, x) == DefStructural <==> CauseOf(v.(refs := refs), x) == DefStructural
  {
    hide EmittedLocs, RefWith, RefCaptured;
    assert v.(refs := refs).View() == v.View();
    assert DefExtracted(v, x) <==> DefExtracted(v.(refs := refs), x);
    assert InsideFunction(v, x) <==> InsideFunction(v.(refs := refs), x);
  }

  lemma CountedMisses(v: Evidence, refs: seq<Ref>, xs: set<LocEdge>)
    ensures StructuralMisses(v.(refs := refs), xs) == StructuralMisses(v, xs)
    ensures DiagnosisOf(v.(refs := refs), xs).defStructural == |StructuralMisses(v, xs)|
    ensures forall x :: x in xs && CauseOf(v.(refs := refs), x) == DefStructural <==> x in StructuralMisses(v, xs)
  {
    hide CauseOf, EmittedLocs;
    forall x ensures CauseOf(v, x) == DefStructural <==> CauseOf(v.(refs := refs), x) == DefStructural {
      RefsDoNotMatter(v, refs, x);
    }
    assert StructuralMisses(v.(refs := refs), xs) == StructuralMisses(v, xs);
  }

  /** Exactly as many samples as the diagnosis counts, up to the limit, whatever references it saw. */
  lemma SamplesAgreeWithDiagnosis(v: Evidence, refs: seq<Ref>, xs: set<LocEdge>, limit: nat)
    ensures var samples := FirstMisses(v, xs, limit);
            var counted := DiagnosisOf(v.(refs := refs), xs).defStructural;
            && |samples| == (if counted <= limit then counted else limit)
            && Sorted(samples, CompareLoc)
            && (forall x :: x in samples ==> x in xs && CauseOf(v.(refs := refs), x) == DefStructural)
            && (counted <= limit ==>
                  forall x :: x in xs && CauseOf(v.(refs := refs), x) == DefStructural ==> x in samples)
  {
    hide CauseOf, CompareLoc, DiagnosisOf;
    CountedMisses(v, refs, xs);
    var all := SortedLocs(StructuralMisses(v, xs));
    assert forall x :: x in Take(all, limit) ==> x in all;
  }

  /** A smaller limit gives a prefix. */
  lemma SmallerLimitIsPrefix(v: Evidence, xs: set<LocEdge>, small: nat, large: nat)
    requires small <= large
    ensures FirstMisses(v, xs, small) == Take(FirstMisses(v, xs, large), small)
  {
  }

  // ----- The loop

  ghost function OnlyMisses(v: Evidence, s: seq<LocEdge>): seq<LocEdge> {
    if s == [] then [] else
      var last := |s| - 1;
      OnlyMisses(v, s[..last]) + if CauseOf(v, s[last]) == DefStructural then [s[last]] else []
  }

  lemma {:induction false} OnlyMissesSorted(v: Evidence, s: seq<LocEdge>)
    requires TotalOrder(CompareLoc) && Sorted(s, CompareLoc)
    ensures Sorted(OnlyMisses(v, s), CompareLoc)
    ensures forall x :: x in OnlyMisses(v, s) <==> x in s && CauseOf(v, x) == DefStructural
  {
    hide CauseOf, CompareLoc;
    if s == [] {
    } else {
      var last := |s| - 1;
      var init := OnlyMisses(v, s[..last]);
      OnlyMissesSorted(v, s[..last]);
      assert s == s[..last] + [s[last]];
      forall i | 0 <= i < |init| ensures CompareLoc(init[i], s[last]) == Less {
        assert init[i] in s[..last];
      }
    }
  }

  lemma OnlyMissesAreAll(v: Evidence, xs: set<LocEdge>)
    ensures OnlyMisses(v, SortedLocs(xs)) == SortedLocs(StructuralMisses(v, xs))
  {
    hide CauseOf, CompareLoc, OnlyMisses;
    OnlyMissesSorted(v, SortedLocs(xs));
    SortedUnique(OnlyMisses(v, SortedLocs(xs)), SortedLocs(StructuralMisses(v, xs)), CompareLoc);
  }

  /** Stopping early keeps a prefix. */
  lemma {:induction false} OnlyMissesPrefix(v: Evidence, s: seq<LocEdge>, i: nat)
    requires i <= |s|
    ensures OnlyMisses(v, s[..i]) <= OnlyMisses(v, s)
    decreases |s| - i
  {
    hide CauseOf;
    if i < |s| {
      OnlyMissesPrefix(v, s, i + 1);
      assert s[..i + 1][..i] == s[..i];
    } else {
      assert s[..i] == s;
    }
  }

  lemma OnlyMissesEmpty(v: Evidence)
    ensures OnlyMisses(v, []) == []
  {
  }

  lemma OnlyMissesNext(v: Evidence, s: seq<LocEdge>, i: nat)
    requires i < |s|
    ensures OnlyMisses(v, s[..i + 1]) ==
            OnlyMisses(v, s[..i]) + if CauseOf(v, s[i]) == DefStructural then [s[i]] else []
  {
    assert s[..i + 1][..i] == s[..i];
  }

  method IsStructuralMiss(l: Lookup, x: LocEdge, sources: map<string, Source>, ghost v: Evidence) returns (miss: bool)
    requires Describes(l, v) && sources == v.sources
    ensures miss == (CauseOf(v, x) == DefStructural)
  {
    hide EmittedLocs, DefExtracted, InsideFunction, RefWith, RefCaptured, ResolvedElsewhere;
    if x in l.emitted {
      return false;
    }
    if exists a :: a in l.emitted && IsNear(a, x) {
      return false;
    }
    var extracted := NearLine(l, x, v);
    if extracted {
      return false;
    }
    var inside := InBody(l, x, sources, v);
    miss := !inside;
  }

  /** A missed edge with the source text at both of its ends. */
  datatype StructuralMissSample = StructuralMissSample(loc: LocEdge, refSource: Source, defSource: Source)

  function SampleOf(x: LocEdge, sources: map<string, Source>, trim: Source -> Source): StructuralMissSample {
    StructuralMissSample(x, SourceLine(sources, x.refFile, x.refLine, trim),
                         SourceLine(sources, x.defFile, x.defLine, trim))
  }

  function SamplesOf(xs: seq<LocEdge>, sources: map<string, Source>, trim: Source -> Source)
    : (samples: seq<StructuralMissSample>)
    ensures |samples| == |xs| && forall i :: 0 <= i < |xs| ==> samples[i] == SampleOf(xs[i], sources, trim)
    ensures forall i :: 0 <= i < |xs| ==>
              && samples[i].loc == xs[i]
              && samples[i].refSource == SourceLine(sources, xs[i].refFile, xs[i].refLine, trim)
              && samples[i].defSource == SourceLine(sources, xs[i].defFile, xs[i].defLine, trim)
  {
    seq(|xs|, i requires 0 <= i < |xs| => SampleOf(xs[i], sources, trim))
  }

  /** Samples of the first `limit` structural misses of the sorted, de-duplicated oracle. */
  method StructuralMissSamples(graph: CodeGraph, oracle: seq<LocEdge>, sources: map<string, Source>,
                               scip: SymbolId -> string, trim: Source -> Source, limit: nat)
    returns (samples: seq<StructuralMissSample>)
    ensures var misses := FirstMisses(Evidence(graph, [], sources, scip), Distinct(oracle), limit);
            samples == SamplesOf(misses, sources, trim)
    ensures var v := Evidence(graph, [], sources, scip);
            samples == SamplesOf(Take(SortedLocs(StructuralSet(v, Distinct(oracle))), limit), sources, trim)
    ensures forall s :: s in samples ==>
              && s.refSource == SourceLine(sources, s.loc.refFile, s.loc.refLine, trim)
              && s.defSource == SourceLine(sources, s.loc.defFile, s.loc.defLine, trim)
  {
    hide Describes, CauseOf, CompareLoc, SortedLocs, StructuralMisses, EmittedLocs, OnlyMisses, SampleOf,
         StructuralSet;
    StructuralMissesMean(Evidence(graph, [], sources, scip), Distinct(oracle));
    ghost var v := Evidence(graph, [], sources, scip);
    var l := BuildLookup(graph, [], sources, scip);
    var sorted := SortedLocs(Distinct(oracle));
    samples := [];
    ghost var misses := [];
    OnlyMissesAreAll(v, Distinct(oracle));
    OnlyMissesEmpty(v);
    for i := 0 to |sorted|
      invariant misses == OnlyMisses(v, sorted[..i]) && |misses| <= limit
      invariant samples == SamplesOf(misses, sources, trim)
    {
      if |samples| >= limit {
        OnlyMissesPrefix(v, sorted, i);
        return;
      }
      OnlyMissesNext(v, sorted, i);
      var miss := IsStructuralMiss(l, sorted[i], sources, v);
      if !miss {
        continue;
      }
      samples := samples + [SampleOf(sorted[i], sources, trim)];
      misses := misses + [sorted[i]];
    }
    assert sorted[..|sorted|] == sorted;
  }
}
