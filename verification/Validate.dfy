/**
 The structural checks a deserialization boundary runs on scope facts, what they decide, and the
 proof that the facts of the extractors pass them.
 */
module Validate {
  import opened Graph
  import opened Repeats
  import opened Syntax
  import opened Scopes
  import opened Laminar
  import opened Bindings
  import opened References
  import opened Attach

  ghost predicate ParentsExist(scopes: seq<Scope>) {
    forall i :: 0 <= i < |scopes| && scopes[i].parent.Some? ==> scopes[i].parent.value < |scopes|
  }

  /** The scope reached after `n` parent steps; a root stays where it is. */
  ghost function Up(scopes: seq<Scope>, i: nat, n: nat): (k: nat)
    requires ParentsExist(scopes) && i < |scopes|
    ensures k < |scopes|
    decreases n
  {
    if n == 0 || scopes[i].parent.None? then i else Up(scopes, scopes[i].parent.value, n - 1)
  }

  ghost predicate ReachesRoot(scopes: seq<Scope>, i: nat)
    requires ParentsExist(scopes) && i < |scopes|
  {
    exists n: nat :: scopes[Up(scopes, i, n)].parent.None?
  }

  /** Following parents from any scope reaches a root. */
  ghost predicate Acyclic(scopes: seq<Scope>)
    requires ParentsExist(scopes)
  {
    forall i: nat :: i < |scopes| ==> ReachesRoot(scopes, i)
  }

  lemma RootStays(scopes: seq<Scope>, i: nat, n: nat)
    requires ParentsExist(scopes) && i < |scopes| && scopes[i].parent.None?
    ensures Up(scopes, i, n) == i
  {
  }

  lemma {:induction false} UpAdds(scopes: seq<Scope>, i: nat, m: nat, n: nat)
    requires ParentsExist(scopes) && i < |scopes|
    ensures Up(scopes, i, m + n) == Up(scopes, Up(scopes, i, m), n)
    decreases m
  {
    if m > 0 && scopes[i].parent.Some? {
      UpAdds(scopes, scopes[i].parent.value, m - 1, n);
    } else if m > 0 {
      RootStays(scopes, i, m + n);
      RootStays(scopes, i, n);
    }
  }

  /** The first `n` scopes on the way up. */
  ghost function Trail(scopes: seq<Scope>, i: nat, n: nat): set<nat>
    requires ParentsExist(scopes) && i < |scopes|
  {
    set m: nat | m < n :: Up(scopes, i, m)
  }

  /** If two steps of the way up agree, the way never reaches a root that it had not reached before. */
  lemma {:induction false} RepeatNeverEnds(scopes: seq<Scope>, i: nat, a: nat, b: nat, n: nat)
    requires ParentsExist(scopes) && i < |scopes| && a < b <= n
    requires Up(scopes, i, a) == Up(scopes, i, b)
    ensures exists m: nat :: m < n && Up(scopes, i, m) == Up(scopes, i, n)
  {
    UpAdds(scopes, i, a, n - b);
    UpAdds(scopes, i, b, n - b);
    assert Up(scopes, i, a + (n - b)) == Up(scopes, i, n);
  }

  lemma TrailNext(scopes: seq<Scope>, i: nat, n: nat)
    requires ParentsExist(scopes) && i < |scopes|
    ensures Trail(scopes, i, 0) == {}
    ensures Trail(scopes, i, n + 1) == Trail(scopes, i, n) + {Up(scopes, i, n)}
    ensures Up(scopes, i, n) in Trail(scopes, i, n) ==> exists m: nat :: m < n && Up(scopes, i, m) == Up(scopes, i, n)
  {
    hide Up, ParentsExist;
    forall u ensures u in Trail(scopes, i, n + 1) <==> u in Trail(scopes, i, n) || u == Up(scopes, i, n) {
      assert u == Up(scopes, i, n) ==> u in Trail(scopes, i, n + 1);
    }
  }

  lemma {:induction false} TrailGrows(scopes: seq<Scope>, i: nat, n: nat)
    requires ParentsExist(scopes) && i < |scopes|
    requires forall a: nat, b: nat :: a < b < n ==> Up(scopes, i, a) != Up(scopes, i, b)
    ensures |Trail(scopes, i, n)| == n
    decreases n
  {
    hide Up, ParentsExist, Trail;
    if n == 0 {
      TrailNext(scopes, i, 0);
    } else {
      TrailGrows(scopes, i, n - 1);
      TrailNext(scopes, i, n - 1);
    }
  }

  lemma {:induction false} NatsBelow(s: set<nat>, n: nat)
    requires forall x :: x in s ==> x < n
    ensures |s| <= n
    decreases n
  {
    if n == 0 {
      assert s == {};
    } else {
      NatsBelow(s - {n - 1}, n - 1);
    }
  }

  /** A root that is reached at all is reached within as many steps as there are scopes. */
  lemma RootWithinLength(scopes: seq<Scope>, i: nat, n: nat)
    requires ParentsExist(scopes) && i < |scopes| && scopes[Up(scopes, i, n)].parent.None?
    ensures scopes[Up(scopes, i, |scopes|)].parent.None?
    decreases n
  {
    if n <= |scopes| {
      UpAdds(scopes, i, n, |scopes| - n);
      RootStays(scopes, Up(scopes, i, n), |scopes| - n);
    } else if a: nat, b: nat :| a < b < n && Up(scopes, i, a) == Up(scopes, i, b) {
      RepeatNeverEnds(scopes, i, a, b, n);
      var m: nat :| m < n && Up(scopes, i, m) == Up(scopes, i, n);
      RootWithinLength(scopes, i, m);
    } else {
      TrailGrows(scopes, i, n);
      NatsBelow(Trail(scopes, i, n), |scopes|);
      assert false;
    }
  }

  datatype Verdict =
    | Accepted
    | DuplicateSymbol(index: nat)
    | BadParent(index: nat)
    | ParentCycle(start: nat)
    | BadReference(index: nat)
    | BadBinding(index: nat)

  /** A scope that is named must exist; references outside every scope name none. */
  predicate Names(scope: Option<nat>, scopes: seq<Scope>) {
    scope.Some? ==> scope.value < |scopes|
  }

  /** `i` is the first of the scopes named that does not exist. */
  ghost predicate FirstUnknown(named: seq<Option<nat>>, scopes: seq<Scope>, i: nat) {
    i < |named| && !Names(named[i], scopes) && forall j :: 0 <= j < i ==> Names(named[j], scopes)
  }

  ghost predicate FirstCycle(scopes: seq<Scope>, start: nat)
    requires ParentsExist(scopes)
  {
    start < |scopes| && !ReachesRoot(scopes, start) && forall i: nat :: i < start ==> ReachesRoot(scopes, i)
  }

  ghost predicate AllKnown(named: seq<Option<nat>>, scopes: seq<Scope>) {
    forall i :: 0 <= i < |named| ==> Names(named[i], scopes)
  }

  function ParentsOf(scopes: seq<Scope>): (parents: seq<Option<nat>>)
    ensures |parents| == |scopes|
  {
    seq(|scopes|, i requires 0 <= i < |scopes| => scopes[i].parent)
  }

  function ScopesBound(bindings: seq<Binding>): (named: seq<Option<nat>>)
    ensures |named| == |bindings|
  {
    seq(|bindings|, i requires 0 <= i < |bindings| => Some(bindings[i].scope))
  }

  /** Scan the scopes named by parents, references or bindings. */
  method FindUnknown(named: seq<Option<nat>>, scopes: seq<Scope>) returns (bad: Option<nat>)
    ensures bad.None? <==> AllKnown(named, scopes)
    ensures bad.Some? ==> FirstUnknown(named, scopes, bad.value)
  {
    for i := 0 to |named|
      invariant forall j :: 0 <= j < i ==> Names(named[j], scopes)
    {
      if named[i].Some? && named[i].value >= |scopes| {
        return Some(i);
      }
    }
    bad := None;
  }

  /** Climb from every scope, as many steps as there are scopes. */
  method FindCycle(scopes: seq<Scope>) returns (bad: Option<nat>)
    requires ParentsExist(scopes)
    ensures bad.None? <==> Acyclic(scopes)
    ensures bad.Some? ==> FirstCycle(scopes, bad.value)
  {
    for start := 0 to |scopes|
      invariant forall i: nat :: i < start ==> ReachesRoot(scopes, i)
    {
      var current := start;
      var step := 0;
      while step < |scopes|
        invariant step <= |scopes| && current < |scopes|
        invariant Up(scopes, start, |scopes|) == Up(scopes, current, |scopes| - step)
      {
        match scopes[current].parent {
          case Some(parent) => current := parent;
          case None =>
            RootStays(scopes, current, |scopes| - step);
            break;
        }
        step := step + 1;
      }
      if scopes[current].parent.Some? {
        if n: nat :| scopes[Up(scopes, start, n)].parent.None? {
          RootWithinLength(scopes, start, n);
        }
        assert !ReachesRoot(scopes, start);
        return Some(start);
      }
      assert scopes[Up(scopes, start, |scopes|)].parent.None?;
    }
    bad := None;
  }

  lemma KnownParentsExist(scopes: seq<Scope>)
    ensures AllKnown(ParentsOf(scopes), scopes) <==> ParentsExist(scopes)
  {
    assert forall i :: 0 <= i < |scopes| ==> ParentsOf(scopes)[i] == scopes[i].parent;
  }

  /** What each verdict means: every check before the one that rejects has passed. */
  ghost predicate IsVerdict(r: Verdict, symbols: seq<SymbolId>, scopes: seq<Scope>, references: seq<Option<nat>>,
                            bindings: seq<Binding>)
  {
    match r
    case DuplicateSymbol(i) => FirstRepeat(symbols, i)
    case BadParent(i) => NoRepeats(symbols) && FirstUnknown(ParentsOf(scopes), scopes, i)
    case ParentCycle(i) => NoRepeats(symbols) && ParentsExist(scopes) && FirstCycle(scopes, i)
    case BadReference(i) =>
      NoRepeats(symbols) && ParentsExist(scopes) && Acyclic(scopes) && FirstUnknown(references, scopes, i)
    case BadBinding(i) =>
      && NoRepeats(symbols) && ParentsExist(scopes) && Acyclic(scopes) && AllKnown(references, scopes)
      && FirstUnknown(ScopesBound(bindings), scopes, i)
    case Accepted =>
      && NoRepeats(symbols) && ParentsExist(scopes) && Acyclic(scopes) && AllKnown(references, scopes)
      && AllKnown(ScopesBound(bindings), scopes)
  }

  lemma BoundScopesKnown(scopes: seq<Scope>, bindings: seq<Binding>)
    ensures AllKnown(ScopesBound(bindings), scopes) <==> forall b :: b in bindings ==> b.scope < |scopes|
  {
    if AllKnown(ScopesBound(bindings), scopes) {
      forall b | b in bindings ensures b.scope < |scopes| {
        var i :| 0 <= i < |bindings| && bindings[i] == b;
        assert Names(ScopesBound(bindings)[i], scopes);
      }
    }
  }

  /**
   The structural validation of one file: distinct symbols, existing and acyclic parents, and references
   and bindings that name a scope. `references` holds the scope each reference names, if any.
   */
  method ValidateStructure(symbols: seq<SymbolId>, scopes: seq<Scope>, references: seq<Option<nat>>,
                           bindings: seq<Binding>)
    returns (r: Verdict)
    ensures IsVerdict(r, symbols, scopes, references, bindings)
    ensures r == Accepted <==>
              && NoRepeats(symbols) && ParentsExist(scopes) && Acyclic(scopes) && AllKnown(references, scopes)
              && forall b :: b in bindings ==> b.scope < |scopes|
  {
    hide Acyclic, FirstCycle;
    BoundScopesKnown(scopes, bindings);
    var repeat := FindRepeat(symbols);
    if repeat.Some? {
      RepeatsShow(symbols, repeat.value);
      return DuplicateSymbol(repeat.value);
    }
    KnownParentsExist(scopes);
    var parent := FindUnknown(ParentsOf(scopes), scopes);
    if parent.Some? {
      return BadParent(parent.value);
    }
    var cycle := FindCycle(scopes);
    if cycle.Some? {
      return ParentCycle(cycle.value);
    }
    var reference := FindUnknown(references, scopes);
    if reference.Some? {
      return BadReference(reference.value);
    }
    var binding := FindUnknown(ScopesBound(bindings), scopes);
    if binding.Some? {
      return BadBinding(binding.value);
    }
    r := Accepted;
  }

  lemma {:induction false} RootedReachesRoot(scopes: seq<Scope>, sourceLen: nat, i: nat)
    requires Rooted(scopes, sourceLen) && ParentsExist(scopes) && i < |scopes|
    ensures Up(scopes, i, i) == 0
    decreases i
  {
    if i == 0 {
    } else {
      var p := scopes[i].parent.value;
      RootedReachesRoot(scopes, sourceLen, p);
      UpAdds(scopes, p, p, i - 1 - p);
      RootStays(scopes, 0, i - 1 - p);
    }
  }

  /** The scope each reference names, if any. */
  function ScopesReferenced(references: seq<ScopedReference>): (named: seq<Option<nat>>)
    ensures |named| == |references|
  {
    seq(|references|, i requires 0 <= i < |references| => references[i].scope)
  }

  /** What the range checks against the source ask of a scope, of a reference and of a binding. */
  ghost predicate InRange(scopes: seq<Scope>, references: seq<ScopedReference>, bindings: seq<Binding>, sourceLen: nat)
    requires ParentsExist(scopes)
  {
    && (forall i :: 0 <= i < |scopes| ==> scopes[i].span.start <= scopes[i].span.end <= sourceLen)
    && (forall i :: 0 <= i < |scopes| && scopes[i].parent.Some? ==>
          Inside(scopes[i].span, scopes[scopes[i].parent.value].span))
    && (forall r :: r in references && r.scope.Some? ==>
          r.scope.value < |scopes| && scopes[r.scope.value].span.Contains(r.reference.byte))
    && (forall b :: b in bindings ==> b.scope < |scopes| && scopes[b.scope].span.Contains(b.intro))
  }

  /** The scope trees of all three languages are acyclic and nested within the source. */
  lemma ScopesAcyclic(scopes: seq<Scope>, sourceLen: nat)
    requires IsLaminar(scopes, sourceLen)
    ensures ParentsExist(scopes) && Acyclic(scopes) && InRange(scopes, [], [], sourceLen)
  {
    hide Separated;
    forall i: nat | i < |scopes| ensures ReachesRoot(scopes, i) {
      RootedReachesRoot(scopes, sourceLen, i);
      assert scopes[Up(scopes, i, i)].parent.None?;
    }
    forall i: nat | i < |scopes| ensures scopes[i].span.start <= scopes[i].span.end <= sourceLen {
      RootEncloses(scopes, sourceLen, i);
      AncestorsCover(scopes, sourceLen, 0, i);
    }
  }

  /**
   The scopes, the references and the bindings extracted from a C file pass the structural checks, and they
   pass the range checks exactly when no declarator starts at the end of the source, as none with a name does.
   */
  lemma ExtractedFactsAreValid(root: Node, source: string, symbols: seq<SymbolId>)
    requires WellFormed(root) && root.span.end <= |source| && NoRepeats(symbols)
    ensures var scopes := ScopesOf(C, root, |source|);
            var references := AllAttached(ReadsAndWrites(C, root, source), scopes);
            var bindings := BindingsOf(root, source, scopes);
            && IsVerdict(Accepted, symbols, scopes, ScopesReferenced(references), bindings)
            && (InRange(scopes, references, bindings, |source|) <==> forall b :: b in bindings ==> b.intro < |source|)
            && ((forall b :: b in bindings ==> b.name != "") ==> InRange(scopes, references, bindings, |source|))
  {
    hide ScopesOf, BindingsOf, WellFormed, Separated, Acyclic, Encloses, InnermostScope, Reads, Writes;
    var scopes := ScopesOf(C, root, |source|);
    var references := AllAttached(ReadsAndWrites(C, root, source), scopes);
    ScopesAreLaminar(C, root, |source|);
    ScopesAcyclic(scopes, |source|);
    ReferencesAreAttached(C, root, source);
    assert forall i :: 0 <= i < |references| ==> references[i] in references;
    var bindings := BindingsOf(root, source, scopes);
    BindingsWellBound(root, source, scopes, |source|);
    BoundScopesKnown(scopes, bindings);
    BindingsNamedWithin(root, source, scopes);
  }
}
