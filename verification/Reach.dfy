/**
 Reverse reachability by paths: a symbol is impacted by the seed when a chain of edges
 leads from it to the seed. `Within` and `Level` are the breadth-first sets; the lemmas
 tie them to the existence and the length of paths.
 */
module Reach {
  import opened Graph

  /** `p` leads from `x` to `seed` along edges of `es`. */
  ghost predicate IsPath(es: set<Edge>, x: SymbolId, p: seq<Edge>, seed: SymbolId)
    decreases |p|
  {
    if p == [] then x == seed
    else p[0] in es && p[0].from == x && IsPath(es, p[0].to, p[1..], seed)
  }

  ghost predicate Reaches(es: set<Edge>, x: SymbolId, seed: SymbolId) {
    exists p :: IsPath(es, x, p, seed)
  }

  /** The length of a shortest path from `x` to `seed` is `n`. */
  ghost predicate Distance(es: set<Edge>, x: SymbolId, seed: SymbolId, n: nat) {
    && (exists p :: IsPath(es, x, p, seed) && |p| == n)
    && (forall p :: IsPath(es, x, p, seed) ==> n <= |p|)
  }

  /** Every edge of the path has at least confidence `t`. */
  ghost predicate AllAtLeast(p: seq<Edge>, t: Confidence) {
    forall e :: e in p ==> e.confidence.AtLeast(t)
  }

  /** The bottleneck of a path: the weakest confidence of its edges; the empty path is exact. */
  ghost predicate IsBottleneck(p: seq<Edge>, c: Confidence) {
    AllAtLeast(p, c) && if p == [] then c == Exact else exists e :: e in p && e.confidence == c
  }

  lemma ConsPath(es: set<Edge>, e: Edge, tail: seq<Edge>, seed: SymbolId)
    requires e in es && IsPath(es, e.to, tail, seed)
    ensures IsPath(es, e.from, [e] + tail, seed)
  {
    assert ([e] + tail)[1..] == tail;
  }

  /** One more edge in front weakens the bottleneck to that edge's confidence, or leaves it. */
  lemma ConsBottleneck(e: Edge, tail: seq<Edge>, c: Confidence, m: Confidence)
    requires IsBottleneck(tail, c) && IsWeaker(m, c, e.confidence)
    ensures IsBottleneck([e] + tail, m)
  {
    assert e in [e] + tail;
    if m != e.confidence && tail != [] {
      var f :| f in tail && f.confidence == c;
      assert f in [e] + tail;
    }
  }

  /** Sources of edges that enter `s`. */
  ghost function Sources(es: set<Edge>, s: set<SymbolId>): set<SymbolId> {
    set e | e in es && e.to in s :: e.from
  }

  /** Symbols with a path of at most `n` edges to the seed. */
  ghost function Within(es: set<Edge>, seed: SymbolId, n: nat): set<SymbolId> {
    if n == 0 then {seed} else Within(es, seed, n - 1) + Sources(es, Within(es, seed, n - 1))
  }

  /** Symbols first met after exactly `n` edges. */
  ghost function Level(es: set<Edge>, seed: SymbolId, n: nat): set<SymbolId> {
    if n == 0 then {seed} else Within(es, seed, n) - Within(es, seed, n - 1)
  }

  lemma SeedIsLevelZero(es: set<Edge>, seed: SymbolId)
    ensures Level(es, seed, 0) == Within(es, seed, 0) == {seed}
  {
  }

  lemma {:induction false} WithinMonotone(es: set<Edge>, seed: SymbolId, m: nat, n: nat)
    requires m <= n
    ensures Within(es, seed, m) <= Within(es, seed, n)
    decreases n
  {
    if m == n {
    } else {
      WithinMonotone(es, seed, m, n - 1);
    }
  }

  lemma {:induction false} PathBoundsWithin(es: set<Edge>, x: SymbolId, p: seq<Edge>, seed: SymbolId)
    requires IsPath(es, x, p, seed)
    ensures x in Within(es, seed, |p|)
    decreases |p|
  {
    if p == [] {
    } else {
      PathBoundsWithin(es, p[0].to, p[1..], seed);
    }
  }

  lemma {:induction false} WithinHasPath(es: set<Edge>, x: SymbolId, seed: SymbolId, n: nat) returns (p: seq<Edge>)
    requires x in Within(es, seed, n)
    ensures IsPath(es, x, p, seed) && |p| <= n
    decreases n
  {
    if n == 0 {
      p := [];
    } else if x in Within(es, seed, n - 1) {
      p := WithinHasPath(es, x, seed, n - 1);
    } else {
      var e :| e in es && e.to in Within(es, seed, n - 1) && e.from == x;
      var tail := WithinHasPath(es, e.to, seed, n - 1);
      p := [e] + tail;
      assert p[1..] == tail;
    }
  }

  /** Breadth-first levels are exactly the shortest reverse distances. */
  lemma LevelIsDistance(es: set<Edge>, x: SymbolId, seed: SymbolId, n: nat)
    ensures x in Level(es, seed, n) <==> Distance(es, x, seed, n)
  {
    if x in Level(es, seed, n) {
      var p := WithinHasPath(es, x, seed, n);
      forall q | IsPath(es, x, q, seed) ensures n <= |q| {
        PathBoundsWithin(es, x, q, seed);
        if |q| < n {
          WithinMonotone(es, seed, |q|, n - 1);
        }
      }
      assert |p| == n;
    }
    if Distance(es, x, seed, n) {
      var p :| IsPath(es, x, p, seed) && |p| == n;
      PathBoundsWithin(es, x, p, seed);
      if n > 0 && x in Within(es, seed, n - 1) {
        var q := WithinHasPath(es, x, seed, n - 1);
        assert false;
      }
    }
  }

  /** An edge that enters a level from outside everything met so far comes from the next level. */
  lemma EdgeIntoLevel(es: set<Edge>, seed: SymbolId, n: nat, e: Edge)
    requires e in es && e.to in Level(es, seed, n) && e.from !in Within(es, seed, n)
    ensures e.from in Level(es, seed, n + 1)
  {
  }

  /** Every symbol of a level is the source of an edge into the level before. */
  lemma LevelHasEdge(es: set<Edge>, seed: SymbolId, n: nat, x: SymbolId)
    requires n > 0 && x in Level(es, seed, n)
    ensures exists e :: e in es && e.from == x && e.to in Level(es, seed, n - 1)
  {
    var e :| e in es && e.to in Within(es, seed, n - 1) && e.from == x;
    var before: nat := n - 1;
    assert before > 0 && e.to in Within(es, seed, before - 1) ==> x in Within(es, seed, before);
  }

  lemma LevelsDisjoint(es: set<Edge>, seed: SymbolId, m: nat, n: nat)
    requires m < n
    ensures Level(es, seed, m) !! Level(es, seed, n)
  {
    WithinMonotone(es, seed, m, n - 1);
  }

  lemma WithinStep(es: set<Edge>, seed: SymbolId, n: nat)
    requires n > 0
    ensures Within(es, seed, n) == Within(es, seed, n - 1) + Sources(es, Within(es, seed, n - 1))
    ensures Level(es, seed, n) == Within(es, seed, n) - Within(es, seed, n - 1)
  {
  }

  /** Once a level is empty the reachable set is complete. */
  lemma {:induction false} EmptyLevelCloses(es: set<Edge>, seed: SymbolId, n: nat, m: nat)
    requires Level(es, seed, n + 1) == {} && n <= m
    ensures Within(es, seed, m) == Within(es, seed, n)
    decreases m
  {
    hide Within, Level, Sources;
    if n == m {
    } else {
      EmptyLevelCloses(es, seed, n, m - 1);
      WithinStep(es, seed, m);
      WithinStep(es, seed, n + 1);
      assert forall x :: x in Within(es, seed, n + 1) && x !in Within(es, seed, n) ==> x in Level(es, seed, n + 1);
    }
  }

  lemma EmptyLevelsStay(es: set<Edge>, seed: SymbolId, n: nat, d: nat)
    requires Level(es, seed, n + 1) == {} && n < d
    ensures Level(es, seed, d) == {}
  {
    hide Within, Level, Sources;
    EmptyLevelCloses(es, seed, n, d);
    EmptyLevelCloses(es, seed, n, d - 1);
    WithinStep(es, seed, d);
  }

  /** Everything within `n` edges lies on one of the levels up to `n`. */
  lemma {:induction false} WithinHasLevel(es: set<Edge>, seed: SymbolId, n: nat, x: SymbolId) returns (m: nat)
    requires x in Within(es, seed, n)
    ensures m <= n && x in Level(es, seed, m)
    decreases n
  {
    if n == 0 || x !in Within(es, seed, n - 1) {
      m := n;
    } else {
      m := WithinHasLevel(es, seed, n - 1, x);
    }
  }

  lemma LevelInWithin(es: set<Edge>, seed: SymbolId, m: nat, n: nat)
    requires m <= n
    ensures Level(es, seed, m) <= Within(es, seed, n)
  {
    WithinMonotone(es, seed, m, n);
  }

  /** All symbols a traversal can meet: the finite bound on its progress. */
  ghost function Universe(es: set<Edge>, seed: SymbolId): set<SymbolId> {
    {seed} + set e | e in es :: e.from
  }

  lemma {:induction false} WithinUniverse(es: set<Edge>, seed: SymbolId, n: nat)
    ensures Within(es, seed, n) <= Universe(es, seed)
  {
    if n == 0 {
    } else {
      WithinUniverse(es, seed, n - 1);
    }
  }
}
