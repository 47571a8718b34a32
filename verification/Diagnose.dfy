/**
 Why each oracle edge was missed: a prioritised cascade over every missed edge, and the sampler
 that is written separately but must agree with it.
 */
module Diagnose {
  import opened Graph
  import opened Lines
  import opened Score

  const TOL: nat := 2

  datatype Ref = Ref(
    file: string,
    line: nat,
    selfReceiver: bool,
    qualifier: Option<string>,
    sourceModule: Option<string>,
    importedName: Option<string>,
    fromPath: Option<string>,
    isReexport: bool)
  {
    predicate CarriesImport() {
      sourceModule.Some? || importedName.Some? || fromPath.Some? || isReexport
    }
  }

  datatype RecallDiagnosis = RecallDiagnosis(
    missed: nat,
    nearMissLine: nat,
    defNotExtracted: nat,
    defInFunction: nat,
    defStructural: nat,
    refNotCaptured: nat,
    resolvedToOther: nat,
    capturedUnresolved: nat,
    cuSelfReceiver: nat,
    cuQualifiedReceiver: nat,
    cuImported: nat,
    cuBareName: nat)
  {
    /** The five buckets partition the misses; two of them are partitioned again. */
    predicate Balanced() {
      && missed == nearMissLine + defNotExtracted + refNotCaptured + resolvedToOther + capturedUnresolved
      && defNotExtracted == defInFunction + defStructural
      && capturedUnresolved == cuSelfReceiver + cuQualifiedReceiver + cuImported + cuBareName
    }

    function Merge(other: RecallDiagnosis): RecallDiagnosis {
      RecallDiagnosis(
        missed + other.missed, nearMissLine + other.nearMissLine, defNotExtracted + other.defNotExtracted,
        defInFunction + other.defInFunction, defStructural + other.defStructural,
        refNotCaptured + other.refNotCaptured, resolvedToOther + other.resolvedToOther,
        capturedUnresolved + other.capturedUnresolved, cuSelfReceiver + other.cuSelfReceiver,
        cuQualifiedReceiver + other.cuQualifiedReceiver, cuImported + other.cuImported, cuBareName + other.cuBareName)
    }
  }

  const NOTHING_MISSED := RecallDiagnosis(0, 0, 0, 0, 0, 0, 0, 0, 0, 0, 0, 0)

  // ----- The causes, stated on the graph

  /** What a diagnosis looks at. */
  datatype Evidence = Evidence(
    graph: CodeGraph,
    refs: seq<Ref>,
    sources: map<string, Source>,
    scip: SymbolId -> string)
  {
    function View(): Scoring { OracleView(graph, sources, scip) }
  }

  function AbsDiff(a: nat, b: nat): nat { if a < b then b - a else a - b }

  predicate IsNear(a: LocEdge, x: LocEdge) {
    && a.refFile == x.refFile && a.defFile == x.defFile
    && AbsDiff(a.refLine, x.refLine) <= TOL && AbsDiff(a.defLine, x.defLine) <= TOL
  }

  ghost predicate IsEmitted(v: Evidence, x: LocEdge) {
    x in EmittedLocs(v.View(), v.graph.edges)
  }

  ghost predicate NearMiss(v: Evidence, x: LocEdge) {
    exists a :: a in EmittedLocs(v.View(), v.graph.edges) && IsNear(a, x)
  }

  ghost predicate DefExtracted(v: Evidence, x: LocEdge) {
    exists s :: s in v.graph.symbols && s.file == x.defFile && AbsDiff(s.line, x.defLine) <= TOL
  }

  predicate IsBody(s: Symbol) { s.kind == SymbolKind.Function || s.kind == SymbolKind.Method }

  /** The definition line starts inside the span of an extracted function or method. */
  ghost predicate InsideFunction(v: Evidence, x: LocEdge) {
    && x.defFile in v.sources
    && LineStart(v.sources[x.defFile], x.defLine).Some?
    && exists s :: s in v.graph.symbols && IsBody(s) && s.file == x.defFile
                   && s.span.Contains(LineStart(v.sources[x.defFile], x.defLine).value)
  }

  ghost predicate RefCaptured(v: Evidence, x: LocEdge) {
    exists r :: r in v.refs && r.file == x.refFile && r.line == x.refLine
  }

  ghost predicate ResolvedElsewhere(v: Evidence, x: LocEdge) {
    exists a :: a in EmittedLocs(v.View(), v.graph.edges) && a.refFile == x.refFile && a.refLine == x.refLine
  }

  ghost predicate RefWith(v: Evidence, x: LocEdge, shape: Ref -> bool) {
    exists r :: r in v.refs && r.file == x.refFile && r.line == x.refLine && shape(r)
  }

  datatype Cause =
    | Matched
    | NearMissLine
    | DefInFunction | DefStructural
    | RefNotCaptured
    | ResolvedToOther
    | SelfReceiver | QualifiedReceiver | Imported | BareName

  /** The first cause that applies, in priority order. */
  ghost function CauseOf(v: Evidence, x: LocEdge): Cause {
    if IsEmitted(v, x) then Matched
    else if NearMiss(v, x) then NearMissLine
    else if !DefExtracted(v, x) then if InsideFunction(v, x) then DefInFunction else DefStructural
    else if !RefCaptured(v, x) then RefNotCaptured
    else if ResolvedElsewhere(v, x) then ResolvedToOther
    else if RefWith(v, x, (r: Ref) => r.selfReceiver) then SelfReceiver
    else if RefWith(v, x, (r: Ref) => r.qualifier.Some?) then QualifiedReceiver
    else if RefWith(v, x, (r: Ref) => r.CarriesImport()) then Imported
    else BareName
  }

  /** How many edges of a set have one cause. */
  ghost function Having(v: Evidence, xs: set<LocEdge>, cause: Cause): nat {
    |set x | x in xs && CauseOf(v, x) == cause|
  }

  /** The diagnosis of a set of oracle edges: each counter is the size of its bucket. */
  ghost function DiagnosisOf(v: Evidence, xs: set<LocEdge>): RecallDiagnosis {
    var inFunction, structural := Having(v, xs, DefInFunction), Having(v, xs, DefStructural);
    var self, qualified := Having(v, xs, SelfReceiver), Having(v, xs, QualifiedReceiver);
    var imported, bare := Having(v, xs, Imported), Having(v, xs, BareName);
    RecallDiagnosis(
      |xs - EmittedLocs(v.View(), v.graph.edges)|, Having(v, xs, NearMissLine),
      inFunction + structural, inFunction, structural,
      Having(v, xs, RefNotCaptured), Having(v, xs, ResolvedToOther),
      self + qualified + imported + bare, self, qualified, imported, bare)
  }

  /** The counters after one more edge. */
  function Bump(d: RecallDiagnosis, cause: Cause): RecallDiagnosis {
    match cause
    case Matched => d
    case NearMissLine => d.(missed := d.missed + 1, nearMissLine := d.nearMissLine + 1)
    case DefInFunction =>
      d.(missed := d.missed + 1, defNotExtracted := d.defNotExtracted + 1, defInFunction := d.defInFunction + 1)
    case DefStructural =>
      d.(missed := d.missed + 1, defNotExtracted := d.defNotExtracted + 1, defStructural := d.defStructural + 1)
    case RefNotCaptured => d.(missed := d.missed + 1, refNotCaptured := d.refNotCaptured + 1)
    case ResolvedToOther => d.(missed := d.missed + 1, resolvedToOther := d.resolvedToOther + 1)
    case SelfReceiver =>
      d.(missed := d.missed + 1, capturedUnresolved := d.capturedUnresolved + 1, cuSelfReceiver := d.cuSelfReceiver + 1)
    case QualifiedReceiver =>
      d.(missed := d.missed + 1, capturedUnresolved := d.capturedUnresolved + 1,
         cuQualifiedReceiver := d.cuQualifiedReceiver + 1)
    case Imported =>
      d.(missed := d.missed + 1, capturedUnresolved := d.capturedUnresolved + 1, cuImported := d.cuImported + 1)
    case BareName =>
      d.(missed := d.missed + 1, capturedUnresolved := d.capturedUnresolved + 1, cuBareName := d.cuBareName + 1)
  }

  lemma HavingStep(v: Evidence, xs: set<LocEdge>, x: LocEdge, cause: Cause)
    requires x !in xs
    ensures Having(v, xs + {x}, cause) == Having(v, xs, cause) + if CauseOf(v, x) == cause then 1 else 0
  {
    hide CauseOf;
    var before := set y | y in xs && CauseOf(v, y) == cause;
    var after := set y | y in xs + {x} && CauseOf(v, y) == cause;
    if CauseOf(v, x) == cause {
      assert after == before + {x};
    } else {
      assert after == before;
    }
  }

  lemma MatchedIsEmitted(v: Evidence, x: LocEdge)
    ensures CauseOf(v, x) == Matched <==> x in EmittedLocs(v.View(), v.graph.edges)
  {
    hide EmittedLocs, NearMiss, DefExtracted, InsideFunction, RefCaptured, ResolvedElsewhere, RefWith;
  }

  lemma MissedStep(v: Evidence, xs: set<LocEdge>, x: LocEdge)
    requires x !in xs
    ensures var emitted := EmittedLocs(v.View(), v.graph.edges);
            |xs + {x} - emitted| == |xs - emitted| + if CauseOf(v, x) == Matched then 0 else 1
  {
    hide EmittedLocs, CauseOf;
    var emitted := EmittedLocs(v.View(), v.graph.edges);
    MatchedIsEmitted(v, x);
    if x in emitted {
      assert xs + {x} - emitted == xs - emitted;
    } else {
      assert xs + {x} - emitted == (xs - emitted) + {x};
    }
  }

  lemma DiagnosisStep(v: Evidence, xs: set<LocEdge>, x: LocEdge)
    requires x !in xs
    ensures DiagnosisOf(v, xs + {x}) == Bump(DiagnosisOf(v, xs), CauseOf(v, x))
  {
    hide CauseOf, Having, EmittedLocs;
    MissedStep(v, xs, x);
    HavingStep(v, xs, x, NearMissLine);
    HavingStep(v, xs, x, DefInFunction);
    HavingStep(v, xs, x, DefStructural);
    HavingStep(v, xs, x, RefNotCaptured);
    HavingStep(v, xs, x, ResolvedToOther);
    HavingStep(v, xs, x, SelfReceiver);
    HavingStep(v, xs, x, QualifiedReceiver);
    HavingStep(v, xs, x, Imported);
    HavingStep(v, xs, x, BareName);
  }

  lemma BumpKeepsBalance(d: RecallDiagnosis, cause: Cause)
    requires d.Balanced()
    ensures Bump(d, cause).Balanced()
  {
  }

  lemma HavingNone(v: Evidence, cause: Cause)
    ensures Having(v, {}, cause) == 0
  {
    hide CauseOf;
    assert (set x | x in {} && CauseOf(v, x) == cause) == {};
  }

  lemma NothingDiagnosed(v: Evidence)
    ensures DiagnosisOf(v, {}) == NOTHING_MISSED
  {
    hide CauseOf, Having, EmittedLocs;
    HavingNone(v, NearMissLine);
    HavingNone(v, DefInFunction);
    HavingNone(v, DefStructural);
    HavingNone(v, RefNotCaptured);
    HavingNone(v, ResolvedToOther);
    HavingNone(v, SelfReceiver);
    HavingNone(v, QualifiedReceiver);
    HavingNone(v, Imported);
    HavingNone(v, BareName);
    assert {} - EmittedLocs(v.View(), v.graph.edges) == {};
  }

  lemma NothingBalances()
    ensures NOTHING_MISSED.Balanced()
  {
  }

  /** The buckets of every diagnosis partition the misses. */
  lemma {:induction false} DiagnosisIsBalanced(v: Evidence, xs: set<LocEdge>)
    ensures DiagnosisOf(v, xs).Balanced()
    decreases |xs|
  {
    hide CauseOf, DiagnosisOf, Bump, RecallDiagnosis.Balanced;
    if xs == {} {
      NothingDiagnosed(v);
      assert NOTHING_MISSED.Balanced() by { NothingBalances(); }
    } else {
      var x :| x in xs;
      DiagnosisIsBalanced(v, xs - {x});
      DiagnosisStep(v, xs - {x}, x);
      BumpKeepsBalance(DiagnosisOf(v, xs - {x}), CauseOf(v, x));
      assert xs - {x} + {x} == xs;
    }
  }

  /** Merging keeps the three sums. */
  lemma MergeKeepsBalance(d: RecallDiagnosis, e: RecallDiagnosis)
    requires d.Balanced() && e.Balanced()
    ensures d.Merge(e).Balanced()
  {
  }

  lemma BumpMerges(d: RecallDiagnosis, e: RecallDiagnosis, cause: Cause)
    ensures Bump(d.Merge(e), cause) == d.Merge(Bump(e, cause))
    ensures d.Merge(NOTHING_MISSED) == d
  {
  }

  /** Diagnosing an oracle in two parts and merging is diagnosing it at once. */
  lemma {:induction false} DiagnosisMerges(v: Evidence, xs: set<LocEdge>, ys: set<LocEdge>)
    requires xs !! ys
    ensures DiagnosisOf(v, xs + ys) == DiagnosisOf(v, xs).Merge(DiagnosisOf(v, ys))
    decreases |ys|
  {
    hide CauseOf, DiagnosisOf, Bump, RecallDiagnosis.Merge;
    if ys == {} {
      NothingDiagnosed(v);
      BumpMerges(DiagnosisOf(v, xs), NOTHING_MISSED, Matched);
      assert xs + ys == xs;
    } else {
      var y :| y in ys;
      var rest := ys - {y};
      DiagnosisMerges(v, xs, rest);
      DiagnosisStep(v, xs + rest, y);
      DiagnosisStep(v, rest, y);
      BumpMerges(DiagnosisOf(v, xs), DiagnosisOf(v, rest), CauseOf(v, y));
      assert rest + {y} == ys && xs + rest + {y} == xs + ys;
    }
  }

  // ----- The counters in terms of files, lines and bytes

  /** Some emitted edge has the same files and lies at most two lines off at both ends. */
  ghost predicate EmittedNearby(emitted: set<LocEdge>, x: LocEdge) {
    exists a :: a in emitted && a.refFile == x.refFile && a.defFile == x.defFile
                && a.refLine <= x.refLine + 2 && x.refLine <= a.refLine + 2
                && a.defLine <= x.defLine + 2 && x.defLine <= a.defLine + 2
  }

  /** Some symbol of the definition's file starts at most two lines off. */
  ghost predicate DefinedNearby(symbols: seq<Symbol>, x: LocEdge) {
    exists s :: s in symbols && s.file == x.defFile && s.line <= x.defLine + 2 && x.defLine <= s.line + 2
  }

  /** The definition line starts at a byte of a function or method of its file. */
  ghost predicate StartsInBody(symbols: seq<Symbol>, sources: map<string, Source>, x: LocEdge) {
    && x.defFile in sources
    && exists b: nat, s :: StartsLine(sources[x.defFile], x.defLine, b)
         && s in symbols && s.file == x.defFile && (s.kind == SymbolKind.Function || s.kind == SymbolKind.Method)
         && s.span.start <= b < s.span.end
  }

  /** Some reference was captured on the reference line. */
  ghost predicate Captured(refs: seq<Ref>, x: LocEdge) {
    exists r :: r in refs && r.file == x.refFile && r.line == x.refLine
  }

  ghost predicate CapturedSelf(refs: seq<Ref>, x: LocEdge) {
    exists r :: r in refs && r.file == x.refFile && r.line == x.refLine && r.selfReceiver
  }

  ghost predicate CapturedQualifier(refs: seq<Ref>, x: LocEdge) {
    exists r :: r in refs && r.file == x.refFile && r.line == x.refLine && r.qualifier.Some?
  }

  ghost predicate CapturedImport(refs: seq<Ref>, x: LocEdge) {
    exists r :: r in refs && r.file == x.refFile && r.line == x.refLine
                && (r.sourceModule.Some? || r.importedName.Some? || r.fromPath.Some? || r.isReexport)
  }

  /** Some edge was emitted from the reference line. */
  ghost predicate EmittedFrom(emitted: set<LocEdge>, x: LocEdge) {
    exists a :: a in emitted && a.refFile == x.refFile && a.refLine == x.refLine
  }

  /** The misses that no nearby emission explains. */
  ghost function FarMisses(v: Evidence, xs: set<LocEdge>): set<LocEdge> {
    var emitted := EmittedLocs(v.View(), v.graph.edges);
    set x | x in xs && x !in emitted && !EmittedNearby(emitted, x)
  }

  /** Of these, the ones without an extracted definition. */
  ghost function Undefined(v: Evidence, xs: set<LocEdge>): set<LocEdge> {
    set x | x in FarMisses(v, xs) && !DefinedNearby(v.graph.symbols, x)
  }

  /** Of these, the ones with an extracted definition and a captured reference that emitted nothing. */
  ghost function Unresolved(v: Evidence, xs: set<LocEdge>): set<LocEdge> {
    set x | x in FarMisses(v, xs) && DefinedNearby(v.graph.symbols, x) && Captured(v.refs, x)
            && !EmittedFrom(EmittedLocs(v.View(), v.graph.edges), x)
  }

  /** The misses next to an emission. */
  ghost function NearSet(v: Evidence, xs: set<LocEdge>): set<LocEdge> {
    var emitted := EmittedLocs(v.View(), v.graph.edges);
    set x | x in xs && x !in emitted && EmittedNearby(emitted, x)
  }

  /** Undefined, but within a body. */
  ghost function InsideSet(v: Evidence, xs: set<LocEdge>): set<LocEdge> {
    set x | x in Undefined(v, xs) && StartsInBody(v.graph.symbols, v.sources, x)
  }

  /** Undefined and outside every body. */
  ghost function StructuralSet(v: Evidence, xs: set<LocEdge>): set<LocEdge> {
    set x | x in Undefined(v, xs) && !StartsInBody(v.graph.symbols, v.sources, x)
  }

  /** Defined, but no reference was captured. */
  ghost function UncapturedSet(v: Evidence, xs: set<LocEdge>): set<LocEdge> {
    set x | x in FarMisses(v, xs) && DefinedNearby(v.graph.symbols, x) && !Captured(v.refs, x)
  }

  /** Defined and captured, but resolved to something else. */
  ghost function OtherSet(v: Evidence, xs: set<LocEdge>): set<LocEdge> {
    var emitted := EmittedLocs(v.View(), v.graph.edges);
    set x | x in FarMisses(v, xs) && DefinedNearby(v.graph.symbols, x) && Captured(v.refs, x) && EmittedFrom(emitted, x)
  }

  ghost function SelfSet(v: Evidence, xs: set<LocEdge>): set<LocEdge> {
    set x | x in Unresolved(v, xs) && CapturedSelf(v.refs, x)
  }

  ghost function QualifiedSet(v: Evidence, xs: set<LocEdge>): set<LocEdge> {
    set x | x in Unresolved(v, xs) && CapturedQualifier(v.refs, x)
  }

  ghost function ImportedSet(v: Evidence, xs: set<LocEdge>): set<LocEdge> {
    set x | x in Unresolved(v, xs) && CapturedImport(v.refs, x)
  }

  /** What each counter counts, without the cascade. */
  ghost predicate CountsMisses(d: RecallDiagnosis, v: Evidence, xs: set<LocEdge>) {
    var emitted := EmittedLocs(v.View(), v.graph.edges);
    var unresolved := Unresolved(v, xs);
    var self, qualified, imported := SelfSet(v, xs), QualifiedSet(v, xs), ImportedSet(v, xs);
    && d.missed == |xs - emitted|
    && d.nearMissLine == |NearSet(v, xs)|
    && d.defNotExtracted == |Undefined(v, xs)|
    && d.defInFunction == |InsideSet(v, xs)|
    && d.defStructural == |StructuralSet(v, xs)|
    && d.refNotCaptured == |UncapturedSet(v, xs)|
    && d.resolvedToOther == |OtherSet(v, xs)|
    && d.capturedUnresolved == |unresolved|
    && d.cuSelfReceiver == |self|
    && d.cuQualifiedReceiver == |qualified - self|
    && d.cuImported == |imported - qualified - self|
    && d.cuBareName == |unresolved - imported - qualified - self|
  }

  lemma InsideFunctionMeans(v: Evidence, x: LocEdge)
    ensures InsideFunction(v, x) <==> StartsInBody(v.graph.symbols, v.sources, x)
  {
    if x.defFile in v.sources {
      var src := v.sources[x.defFile];
      forall b: nat | StartsLine(src, x.defLine, b) ensures LineStart(src, x.defLine) == Some(b) {
        NewlinesMonotone(src, b, |src|);
        LineStartUnique(src, x.defLine, b, LineStart(src, x.defLine).value);
      }
    }
  }

  lemma NearMeans(v: Evidence, x: LocEdge)
    ensures NearMiss(v, x) <==> EmittedNearby(EmittedLocs(v.View(), v.graph.edges), x)
    ensures ResolvedElsewhere(v, x) <==> EmittedFrom(EmittedLocs(v.View(), v.graph.edges), x)
  {
    hide EmittedLocs;
  }

  lemma DefinedMeans(v: Evidence, x: LocEdge)
    ensures DefExtracted(v, x) <==> DefinedNearby(v.graph.symbols, x)
  {
  }

  lemma ShapesMean(v: Evidence, x: LocEdge)
    ensures RefCaptured(v, x) <==> Captured(v.refs, x)
    ensures RefWith(v, x, (r: Ref) => r.selfReceiver) <==> CapturedSelf(v.refs, x)
    ensures RefWith(v, x, (r: Ref) => r.qualifier.Some?) <==> CapturedQualifier(v.refs, x)
    ensures RefWith(v, x, (r: Ref) => r.CarriesImport()) <==> CapturedImport(v.refs, x)
  {
  }

  /** The cause of an edge, question by question. */
  lemma CauseMeans(v: Evidence, x: LocEdge)
    ensures var emitted := EmittedLocs(v.View(), v.graph.edges);
            CauseOf(v, x) ==
            if x in emitted then Matched
            else if EmittedNearby(emitted, x) then NearMissLine
            else if !DefinedNearby(v.graph.symbols, x) then
              if StartsInBody(v.graph.symbols, v.sources, x) then DefInFunction else DefStructural
            else if !Captured(v.refs, x) then RefNotCaptured
            else if EmittedFrom(emitted, x) then ResolvedToOther
            else if CapturedSelf(v.refs, x) then SelfReceiver
            else if CapturedQualifier(v.refs, x) then QualifiedReceiver
            else if CapturedImport(v.refs, x) then Imported
            else BareName
  {
    hide EmittedLocs, InsideFunction, StartsInBody;
    InsideFunctionMeans(v, x);
    NearMeans(v, x);
    DefinedMeans(v, x);
    ShapesMean(v, x);
  }

  lemma NearCounted(v: Evidence, xs: set<LocEdge>)
    ensures Having(v, xs, NearMissLine) == |NearSet(v, xs)|
  {
    hide EmittedLocs, CauseOf, EmittedNearby, DefinedNearby, StartsInBody, EmittedFrom, Captured, CapturedSelf,
         CapturedQualifier, CapturedImport;
    forall x | x in xs {
      CauseMeans(v, x);
    }
    assert (set x | x in xs && CauseOf(v, x) == NearMissLine) == NearSet(v, xs);
  }

  lemma InsideCounted(v: Evidence, xs: set<LocEdge>)
    ensures Having(v, xs, DefInFunction) == |InsideSet(v, xs)|
  {
    hide EmittedLocs, CauseOf, EmittedNearby, DefinedNearby, StartsInBody, EmittedFrom, Captured, CapturedSelf,
         CapturedQualifier, CapturedImport;
    forall x | x in xs {
      CauseMeans(v, x);
    }
    assert (set x | x in xs && CauseOf(v, x) == DefInFunction) == InsideSet(v, xs);
  }

  lemma StructuralCounted(v: Evidence, xs: set<LocEdge>)
    ensures Having(v, xs, DefStructural) == |StructuralSet(v, xs)|
  {
    hide EmittedLocs, CauseOf, EmittedNearby, DefinedNearby, StartsInBody, EmittedFrom, Captured, CapturedSelf,
         CapturedQualifier, CapturedImport;
    forall x | x in xs {
      CauseMeans(v, x);
    }
    assert (set x | x in xs && CauseOf(v, x) == DefStructural) == StructuralSet(v, xs);
  }

  lemma UncapturedCounted(v: Evidence, xs: set<LocEdge>)
    ensures Having(v, xs, RefNotCaptured) == |UncapturedSet(v, xs)|
  {
    hide EmittedLocs, CauseOf, EmittedNearby, DefinedNearby, StartsInBody, EmittedFrom, Captured, CapturedSelf,
         CapturedQualifier, CapturedImport;
    forall x | x in xs {
      CauseMeans(v, x);
    }
    assert (set x | x in xs && CauseOf(v, x) == RefNotCaptured) == UncapturedSet(v, xs);
  }

  lemma OtherCounted(v: Evidence, xs: set<LocEdge>)
    ensures Having(v, xs, ResolvedToOther) == |OtherSet(v, xs)|
  {
    hide EmittedLocs, CauseOf, EmittedNearby, DefinedNearby, StartsInBody, EmittedFrom, Captured, CapturedSelf,
         CapturedQualifier, CapturedImport;
    forall x | x in xs {
      CauseMeans(v, x);
    }
    assert (set x | x in xs && CauseOf(v, x) == ResolvedToOther) == OtherSet(v, xs);
  }

  lemma SelfCounted(v: Evidence, xs: set<LocEdge>)
    ensures Having(v, xs, SelfReceiver) == |SelfSet(v, xs)|
  {
    hide EmittedLocs, CauseOf, EmittedNearby, DefinedNearby, StartsInBody, EmittedFrom, Captured, CapturedSelf,
         CapturedQualifier, CapturedImport;
    forall x | x in xs {
      CauseMeans(v, x);
    }
    assert (set x | x in xs && CauseOf(v, x) == SelfReceiver) == SelfSet(v, xs);
  }

  lemma QualifiedCounted(v: Evidence, xs: set<LocEdge>)
    ensures Having(v, xs, QualifiedReceiver) == |QualifiedSet(v, xs) - SelfSet(v, xs)|
  {
    hide EmittedLocs, CauseOf, EmittedNearby, DefinedNearby, StartsInBody, EmittedFrom, Captured, CapturedSelf,
         CapturedQualifier, CapturedImport;
    forall x | x in xs {
      CauseMeans(v, x);
    }
    assert (set x | x in xs && CauseOf(v, x) == QualifiedReceiver) == QualifiedSet(v, xs) - SelfSet(v, xs);
  }

  lemma ImportedCounted(v: Evidence, xs: set<LocEdge>)
    ensures Having(v, xs, Imported) == |ImportedSet(v, xs) - QualifiedSet(v, xs) - SelfSet(v, xs)|
  {
    hide EmittedLocs, CauseOf, EmittedNearby, DefinedNearby, StartsInBody, EmittedFrom, Captured, CapturedSelf,
         CapturedQualifier, CapturedImport;
    forall x | x in xs {
      CauseMeans(v, x);
    }
    assert (set x | x in xs && CauseOf(v, x) == Imported) == ImportedSet(v, xs) - QualifiedSet(v, xs) - SelfSet(v, xs);
  }

  lemma BareCounted(v: Evidence, xs: set<LocEdge>)
    ensures Having(v, xs, BareName) == |Unresolved(v, xs) - ImportedSet(v, xs) - QualifiedSet(v, xs) - SelfSet(v, xs)|
  {
    hide EmittedLocs, CauseOf, EmittedNearby, DefinedNearby, StartsInBody, EmittedFrom, Captured, CapturedSelf,
         CapturedQualifier, CapturedImport;
    forall x | x in xs {
      CauseMeans(v, x);
    }
    assert (set x | x in xs && CauseOf(v, x) == BareName)
        == Unresolved(v, xs) - ImportedSet(v, xs) - QualifiedSet(v, xs) - SelfSet(v, xs);
  }

  lemma TwoParts(v: Evidence, xs: set<LocEdge>)
    ensures |Undefined(v, xs)| == |InsideSet(v, xs)| + |StructuralSet(v, xs)|
  {
    hide Undefined, StartsInBody;
    assert Undefined(v, xs) == InsideSet(v, xs) + StructuralSet(v, xs);
    assert InsideSet(v, xs) !! StructuralSet(v, xs);
  }

  lemma FourParts<T>(all: set<T>, a: set<T>, b: set<T>, c: set<T>)
    requires a <= all && b <= all && c <= all
    ensures |a| + |b - a| + |c - b - a| + |all - c - b - a| == |all|
  {
    assert all == a + (b - a) + (c - b - a) + (all - c - b - a);
    assert a !! (b - a) && a + (b - a) !! (c - b - a) && a + (b - a) + (c - b - a) !! (all - c - b - a);
  }

  /** The counters of a diagnosis count what the questions say. */
  lemma DiagnosisCountsMisses(v: Evidence, xs: set<LocEdge>)
    ensures CountsMisses(DiagnosisOf(v, xs), v, xs)
  {
    hide EmittedLocs, Having, EmittedNearby, DefinedNearby, StartsInBody, EmittedFrom, Captured, CapturedSelf,
         CapturedQualifier, CapturedImport, FarMisses, Undefined, Unresolved;
    NearCounted(v, xs);
    InsideCounted(v, xs);
    StructuralCounted(v, xs);
    UncapturedCounted(v, xs);
    OtherCounted(v, xs);
    SelfCounted(v, xs);
    QualifiedCounted(v, xs);
    ImportedCounted(v, xs);
    BareCounted(v, xs);
    TwoParts(v, xs);
    FourParts(Unresolved(v, xs), SelfSet(v, xs), QualifiedSet(v, xs), ImportedSet(v, xs));
  }

  // ----- The maps the diagnosis builds

  /** `m` lists, for every key that occurs, the values paired with it. */
  ghost predicate Groups<K(!new), V(!new)>(m: map<K, seq<V>>, pairs: seq<(K, V)>) {
    && (forall k :: k in m <==> exists v :: (k, v) in pairs)
    && (forall k, v :: (k, v) in pairs <==> k in m && v in m[k])
  }

  /** Group values by key, as repeated entry-and-push does. */
  method GroupBy<K(==, !new), V(!new)>(pairs: seq<(K, V)>) returns (m: map<K, seq<V>>)
    ensures Groups(m, pairs)
  {
    m := map[];
    for i := 0 to |pairs|
      invariant forall k :: k in m <==> exists v :: (k, v) in pairs[..i]
      invariant forall k, v :: (k, v) in pairs[..i] <==> k in m && v in m[k]
    {
      var (k, v) := pairs[i];
      assert pairs[..i + 1] == pairs[..i] + [(k, v)];
      assert (k, v) in pairs[..i + 1];
      m := m[k := (if k in m then m[k] else []) + [v]];
    }
    assert pairs[..|pairs|] == pairs;
  }

  function SymbolLines(symbols: seq<Symbol>): (r: seq<(string, nat)>)
    ensures |r| == |symbols|
  {
    seq(|symbols|, i requires 0 <= i < |symbols| => (symbols[i].file, symbols[i].line))
  }

  function BodySpans(symbols: seq<Symbol>): seq<(string, ByteSpan)> {
    if symbols == [] then [] else
      var last := |symbols| - 1;
      BodySpans(symbols[..last]) + if IsBody(symbols[last]) then [(symbols[last].file, symbols[last].span)] else []
  }

  function RefSites(refs: seq<Ref>): (r: seq<((string, nat), Ref)>)
    ensures |r| == |refs|
  {
    seq(|refs|, i requires 0 <= i < |refs| => ((refs[i].file, refs[i].line), refs[i]))
  }

  lemma SymbolLinesContain(symbols: seq<Symbol>, file: string, line: nat)
    ensures (file, line) in SymbolLines(symbols) <==> exists s :: s in symbols && s.file == file && s.line == line
  {
    if s :| s in symbols && s.file == file && s.line == line {
      var i :| 0 <= i < |symbols| && symbols[i] == s;
      assert SymbolLines(symbols)[i] == (file, line);
    }
  }

  lemma {:induction false} BodySpansContain(symbols: seq<Symbol>, file: string, span: ByteSpan)
    ensures (file, span) in BodySpans(symbols) <==>
            exists s :: s in symbols && IsBody(s) && s.file == file && s.span == span
  {
    if symbols == [] {
    } else {
      var last := |symbols| - 1;
      BodySpansContain(symbols[..last], file, span);
      assert symbols == symbols[..last] + [symbols[last]];
    }
  }

  lemma RefSitesContain(refs: seq<Ref>, file: string, line: nat, r: Ref)
    ensures ((file, line), r) in RefSites(refs) <==> r in refs && r.file == file && r.line == line
  {
    if r in refs && r.file == file && r.line == line {
      var i :| 0 <= i < |refs| && refs[i] == r;
      assert RefSites(refs)[i] == ((file, line), r);
    }
  }

  /** The lookup structures of one diagnosis. */
  datatype Lookup = Lookup(
    emitted: set<LocEdge>,
    emittedByRef: set<(string, nat)>,
    symbolLines: map<string, seq<nat>>,
    bodySpans: map<string, seq<ByteSpan>>,
    refsAt: map<(string, nat), seq<Ref>>)
  {
    function LinesIn(file: string): seq<nat> {
      if file in symbolLines then symbolLines[file] else []
    }

    function BodiesIn(file: string): seq<ByteSpan> {
      if file in bodySpans then bodySpans[file] else []
    }

    function RefsOn(file: string, line: nat): seq<Ref> {
      if (file, line) in refsAt then refsAt[(file, line)] else []
    }
  }

  /** The structures say what the graph and the facts say. */
  ghost predicate Describes(l: Lookup, v: Evidence) {
    && l.emitted == EmittedLocs(v.View(), v.graph.edges)
    && (forall f, n: nat :: (f, n) in l.emittedByRef <==>
          exists a :: a in l.emitted && a.refFile == f && a.refLine == n)
    && (forall f, n: nat :: n in l.LinesIn(f) <==> exists s :: s in v.graph.symbols && s.file == f && s.line == n)
    && (forall f, p :: p in l.BodiesIn(f) <==>
          exists s :: s in v.graph.symbols && IsBody(s) && s.file == f && s.span == p)
    && (forall f, n: nat :: (f, n) in l.refsAt <==> exists r :: r in v.refs && r.file == f && r.line == n)
    && (forall f, n: nat, r :: r in l.RefsOn(f, n) <==> r in v.refs && r.file == f && r.line == n)
  }

  method LocateEdges(graph: CodeGraph, sources: map<string, Source>, scip: SymbolId -> string)
    returns (emitted: set<LocEdge>, byRef: set<(string, nat)>)
    ensures emitted == EmittedLocs(OracleView(graph, sources, scip), graph.edges)
    ensures forall f, n: nat :: (f, n) in byRef <==> exists a :: a in emitted && a.refFile == f && a.refLine == n
  {
    hide DefLoc, LocalDefLoc;
    var defLoc := BuildDefLoc(graph.symbols, scip);
    ghost var view := OracleView(graph, sources, scip);
    emitted, byRef := {}, {};
    for i := 0 to |graph.edges|
      invariant emitted == EmittedLocs(view, graph.edges[..i])
      invariant forall f, n: nat :: (f, n) in byRef <==> exists a :: a in emitted && a.refFile == f && a.refLine == n
    {
      var e := graph.edges[i];
      EmittedNext(view, graph.edges, i);
      var target := Locate(defLoc, scip(e.to), sources);
      if target.None? {
        continue;
      }
      var a := LocEdge(e.occ.file, e.occ.line, target.value.0, target.value.1);
      assert a.refFile == e.occ.file && a.refLine == e.occ.line;
      emitted := emitted + {a};
      byRef := byRef + {(e.occ.file, e.occ.line)};
    }
    assert graph.edges[..|graph.edges|] == graph.edges;
  }

  lemma LinesDescribed(l: Lookup, symbols: seq<Symbol>)
    requires Groups(l.symbolLines, SymbolLines(symbols))
    ensures forall f, n: nat :: n in l.LinesIn(f) <==> exists s :: s in symbols && s.file == f && s.line == n
  {
    hide SymbolLines;
    forall f, n: nat ensures n in l.LinesIn(f) <==> exists s :: s in symbols && s.file == f && s.line == n {
      SymbolLinesContain(symbols, f, n);
      assert n in l.LinesIn(f) <==> (f, n) in SymbolLines(symbols);
    }
  }

  lemma BodiesDescribed(l: Lookup, symbols: seq<Symbol>)
    requires Groups(l.bodySpans, BodySpans(symbols))
    ensures forall f, p :: p in l.BodiesIn(f) <==> exists s :: s in symbols && IsBody(s) && s.file == f && s.span == p
  {
    hide BodySpans;
    forall f, p ensures p in l.BodiesIn(f) <==> exists s :: s in symbols && IsBody(s) && s.file == f && s.span == p {
      BodySpansContain(symbols, f, p);
      assert p in l.BodiesIn(f) <==> (f, p) in BodySpans(symbols);
    }
  }

  lemma RefsDescribed(l: Lookup, refs: seq<Ref>)
    requires Groups(l.refsAt, RefSites(refs))
    ensures forall f, n: nat :: (f, n) in l.refsAt <==> exists r :: r in refs && r.file == f && r.line == n
    ensures forall f, n: nat, r :: r in l.RefsOn(f, n) <==> r in refs && r.file == f && r.line == n
  {
    hide RefSites;
    forall f, n: nat, r ensures r in l.RefsOn(f, n) <==> r in refs && r.file == f && r.line == n {
      RefSitesContain(refs, f, n, r);
      assert r in l.RefsOn(f, n) <==> ((f, n), r) in RefSites(refs);
    }
    forall f, n: nat ensures (f, n) in l.refsAt <==> exists r :: r in refs && r.file == f && r.line == n {
      if (f, n) in l.refsAt {
        var r :| ((f, n), r) in RefSites(refs);
        RefSitesContain(refs, f, n, r);
        assert r in refs && r.file == f && r.line == n;
      }
      forall r | r in refs && r.file == f && r.line == n ensures (f, n) in l.refsAt {
        assert r in l.RefsOn(f, n);
      }
    }
  }

  method BuildLookup(graph: CodeGraph, refs: seq<Ref>, sources: map<string, Source>, scip: SymbolId -> string)
    returns (l: Lookup)
    ensures Describes(l, Evidence(graph, refs, sources, scip))
  {
    hide EmittedLocs, SymbolLines, BodySpans, RefSites, Groups;
    var emitted, byRef := LocateEdges(graph, sources, scip);
    var lines := GroupBy(SymbolLines(graph.symbols));
    var spans := GroupBy(BodySpans(graph.symbols));
    var refsAt := GroupBy(RefSites(refs));
    l := Lookup(emitted, byRef, lines, spans, refsAt);
    LinesDescribed(l, graph.symbols);
    BodiesDescribed(l, graph.symbols);
    RefsDescribed(l, refs);
  }

  // ----- The cascade

  method NearLine(l: Lookup, x: LocEdge, ghost v: Evidence) returns (extracted: bool)
    requires Describes(l, v)
    ensures extracted == DefExtracted(v, x)
  {
    extracted := exists n :: n in l.LinesIn(x.defFile) && AbsDiff(n, x.defLine) <= TOL;
    if s :| s in v.graph.symbols && s.file == x.defFile && AbsDiff(s.line, x.defLine) <= TOL {
      assert s.line in l.LinesIn(s.file);
    }
  }

  method InBody(l: Lookup, x: LocEdge, sources: map<string, Source>, ghost v: Evidence) returns (inside: bool)
    requires Describes(l, v) && sources == v.sources
    ensures inside == InsideFunction(v, x)
  {
    if x.defFile !in sources {
      return false;
    }
    var start := LineStartByte(sources[x.defFile], x.defLine);
    if start.None? {
      return false;
    }
    var b := start.value;
    LineStartUnique(sources[x.defFile], x.defLine, b, LineStart(sources[x.defFile], x.defLine).value);
    inside := exists p :: p in l.BodiesIn(x.defFile) && p.Contains(b);
    if s :| s in v.graph.symbols && IsBody(s) && s.file == x.defFile && s.span.Contains(b) {
      assert s.span in l.BodiesIn(s.file);
    }
  }

  lemma RefsAtSite(l: Lookup, v: Evidence, x: LocEdge, shape: Ref -> bool)
    requires Describes(l, v)
    ensures RefWith(v, x, shape) <==> exists r :: r in l.RefsOn(x.refFile, x.refLine) && shape(r)
  {
    if r :| r in v.refs && r.file == x.refFile && r.line == x.refLine && shape(r) {
      assert r in l.RefsOn(r.file, r.line);
    }
  }

  method ShapeOf(l: Lookup, x: LocEdge, ghost v: Evidence) returns (cause: Cause)
    requires Describes(l, v)
    ensures cause == if RefWith(v, x, (r: Ref) => r.selfReceiver) then SelfReceiver
                     else if RefWith(v, x, (r: Ref) => r.qualifier.Some?) then QualifiedReceiver
                     else if RefWith(v, x, (r: Ref) => r.CarriesImport()) then Imported
                     else BareName
  {
    var refs := l.RefsOn(x.refFile, x.refLine);
    RefsAtSite(l, v, x, (r: Ref) => r.selfReceiver);
    RefsAtSite(l, v, x, (r: Ref) => r.qualifier.Some?);
    RefsAtSite(l, v, x, (r: Ref) => r.CarriesImport());
    if exists r :: r in refs && r.selfReceiver {
      cause := SelfReceiver;
    } else if exists r :: r in refs && r.qualifier.Some? {
      cause := QualifiedReceiver;
    } else if exists r :: r in refs && r.CarriesImport() {
      cause := Imported;
    } else {
      cause := BareName;
    }
  }

  method FindCause(l: Lookup, x: LocEdge, sources: map<string, Source>, ghost v: Evidence) returns (cause: Cause)
    requires Describes(l, v) && sources == v.sources
    ensures cause == CauseOf(v, x)
  {
    hide EmittedLocs, DefExtracted, InsideFunction, RefWith;
    if x in l.emitted {
      return Matched;
    }
    if exists a :: a in l.emitted && IsNear(a, x) {
      return NearMissLine;
    }
    var extracted := NearLine(l, x, v);
    if !extracted {
      var inside := InBody(l, x, sources, v);
      return if inside then DefInFunction else DefStructural;
    }
    if (x.refFile, x.refLine) !in l.refsAt {
      return RefNotCaptured;
    }
    if (x.refFile, x.refLine) in l.emittedByRef {
      return ResolvedToOther;
    }
    cause := ShapeOf(l, x, v);
  }

  /** Bucket every missed oracle edge by cause, in whatever order the set is iterated. */
  method DiagnoseRecall(graph: CodeGraph, refs: seq<Ref>, oracle: seq<LocEdge>, sources: map<string, Source>,
                        scip: SymbolId -> string)
    returns (d: RecallDiagnosis)
    ensures d == DiagnosisOf(Evidence(graph, refs, sources, scip), Distinct(oracle))
    ensures CountsMisses(d, Evidence(graph, refs, sources, scip), Distinct(oracle))
  {
    hide Describes, CauseOf, DiagnosisOf, Bump, CountsMisses;
    ghost var v := Evidence(graph, refs, sources, scip);
    var l := BuildLookup(graph, refs, sources, scip);
    d := NOTHING_MISSED;
    var rest := Distinct(oracle);
    ghost var done: set<LocEdge> := {};
    NothingDiagnosed(v);
    while rest != {}
      invariant done + rest == Distinct(oracle) && done !! rest
      invariant d == DiagnosisOf(v, done)
      decreases rest
    {
      var x :| x in rest;
      rest := rest - {x};
      DiagnosisStep(v, done, x);
      var cause := FindCause(l, x, sources, v);
      d := Bump(d, cause);
      done := done + {x};
    }
    assert done == Distinct(oracle);
    DiagnosisCountsMisses(v, Distinct(oracle));
  }

  /** The diagnosis and the scorer, written separately, count the same misses. */
  lemma MissedIsFalseNegatives(graph: CodeGraph, refs: seq<Ref>, oracle: seq<LocEdge>, sources: map<string, Source>,
                               scip: SymbolId -> string, card: Scorecard)
    requires Counts(card, EmittedLocs(OracleView(graph, sources, scip), graph.edges), Distinct(oracle),
                    Unlocatable(OracleView(graph, sources, scip), graph.edges))
    ensures var d := DiagnosisOf(Evidence(graph, refs, sources, scip), Distinct(oracle));
            d.missed == card.falseNegatives && d.Balanced()
  {
    DiagnosisIsBalanced(Evidence(graph, refs, sources, scip), Distinct(oracle));
  }
}
