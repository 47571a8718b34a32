/**
 The reference answer of an impact query: one row per impacted symbol, ordered by
 shortest distance and then by identity, each row carrying the best candidate of its
 symbol. The lemmas say what such rows mean in terms of paths.
 */
module Widest {
  import opened Order
  import opened Graph
  import opened Reach

  datatype Candidate = Candidate(parent: SymbolId, via: Edge, pathConfidence: Confidence) {
    /** Greater bottleneck first, then the smaller edge key, then the smaller parent. */
    predicate IsBetterThan(other: Candidate) {
      || pathConfidence.Above(other.pathConfidence)
      || (pathConfidence == other.pathConfidence && CompareKey(via.Key(), other.via.Key()) == Less)
      || (pathConfidence == other.pathConfidence && CompareKey(via.Key(), other.via.Key()) == Equal
          && CompareId(parent, other.parent) == Less)
    }
  }

  datatype ImpactStep = ImpactStep(
    symbol: SymbolId,
    parent: SymbolId,
    via: Edge,
    depth: nat,
    pathConfidence: Confidence)

  // ----- The choice among candidates

  /** Candidates whose edges are told apart by their keys. */
  ghost predicate DistinctKeys(s: set<Candidate>) {
    forall c, d :: c in s && d in s && c.via.Key() == d.via.Key() ==> c == d
  }

  ghost predicate IsBest(c: Candidate, s: set<Candidate>) {
    c in s && forall d :: d in s && d != c ==> c.IsBetterThan(d)
  }

  /** On candidates with distinct edge keys the preference is a strict total order. */
  lemma BetterIsTotalOrder(b: Candidate, c: Candidate, d: Candidate)
    ensures !c.IsBetterThan(c)
    ensures b.IsBetterThan(c) ==> !c.IsBetterThan(b)
    ensures b.IsBetterThan(c) && c.IsBetterThan(d) ==> b.IsBetterThan(d)
    ensures c.via.Key() != d.via.Key() ==> c.IsBetterThan(d) || d.IsBetterThan(c)
  {
    KeysTotallyOrdered();
    IdsTotallyOrdered();
    assert c.pathConfidence.Rank() == d.pathConfidence.Rank() ==> c.pathConfidence == d.pathConfidence;
  }

  lemma BestUnique(c: Candidate, d: Candidate, s: set<Candidate>)
    requires IsBest(c, s) && IsBest(d, s)
    ensures c == d
  {
    BetterIsTotalOrder(c, d, c);
  }

  lemma {:induction false} BestExists(s: set<Candidate>)
    requires s != {} && DistinctKeys(s)
    ensures exists c :: IsBest(c, s)
    decreases |s|
  {
    var c :| c in s;
    var rest := s - {c};
    if rest == {} {
      assert forall d :: d in s ==> d == c || d in rest;
      assert IsBest(c, s);
    } else {
      BestExists(rest);
      var b :| IsBest(b, rest);
      var winner := if c.IsBetterThan(b) then c else b;
      forall d | d in s && d != winner ensures winner.IsBetterThan(d) {
        BetterIsTotalOrder(c, b, d);
        BetterIsTotalOrder(c, b, c);
      }
      assert IsBest(winner, s);
    }
  }

  // ----- One expansion: a frontier with confidences and the edges that enter it

  /** Edges from `x` into `targets`. */
  ghost function Entering(es: set<Edge>, targets: set<SymbolId>, x: SymbolId): set<Edge> {
    set e | e in es && e.from == x && e.to in targets
  }

  /** The candidate an edge into the frontier offers to its source. */
  function Offer(frontier: map<SymbolId, Confidence>, e: Edge): Candidate
    requires e.to in frontier
  {
    Candidate(e.to, e, frontier[e.to].Min(e.confidence))
  }

  /** `e` makes the best offer among the edges from `x` into the frontier. */
  ghost predicate IsBestEntry(es: set<Edge>, frontier: map<SymbolId, Confidence>, x: SymbolId, e: Edge) {
    && e in Entering(es, frontier.Keys, x)
    && forall f :: f in Entering(es, frontier.Keys, x) && f != e ==>
         Offer(frontier, e).IsBetterThan(Offer(frontier, f))
  }

  lemma BestEntryExists(es: set<Edge>, frontier: map<SymbolId, Confidence>, x: SymbolId)
    requires UniqueKeys(es) && Entering(es, frontier.Keys, x) != {}
    ensures exists e :: IsBestEntry(es, frontier, x, e)
  {
    hide Candidate.IsBetterThan;
    var entering := Entering(es, frontier.Keys, x);
    var offers := set e | e in entering :: Offer(frontier, e);
    var first :| first in entering;
    assert Offer(frontier, first) in offers;
    BestExists(offers);
    var c :| IsBest(c, offers);
    var e :| e in entering && c == Offer(frontier, e);
    forall f | f in entering && f != e ensures Offer(frontier, e).IsBetterThan(Offer(frontier, f)) {
      assert Offer(frontier, f) in offers && Offer(frontier, f).via == f;
    }
    assert IsBestEntry(es, frontier, x, e);
  }

  /** The candidate kept for `x`: the best one, whatever the order in which offers come in. */
  ghost function Chosen(es: set<Edge>, frontier: map<SymbolId, Confidence>, x: SymbolId): (c: Candidate)
    requires UniqueKeys(es) && Entering(es, frontier.Keys, x) != {}
    ensures c.via in Entering(es, frontier.Keys, x) && c == Offer(frontier, c.via)
  {
    BestEntryExists(es, frontier, x);
    var e :| IsBestEntry(es, frontier, x, e);
    Offer(frontier, e)
  }

  lemma ChosenIsBestEntry(es: set<Edge>, frontier: map<SymbolId, Confidence>, x: SymbolId)
    requires UniqueKeys(es) && Entering(es, frontier.Keys, x) != {}
    ensures IsBestEntry(es, frontier, x, Chosen(es, frontier, x).via)
  {
    BestEntryExists(es, frontier, x);
  }

  lemma BestEntryIsChosen(es: set<Edge>, frontier: map<SymbolId, Confidence>, x: SymbolId, e: Edge)
    requires UniqueKeys(es) && IsBestEntry(es, frontier, x, e)
    ensures Entering(es, frontier.Keys, x) != {}
    ensures Chosen(es, frontier, x) == Offer(frontier, e)
  {
    hide Candidate.IsBetterThan;
    assert e in Entering(es, frontier.Keys, x);
    ChosenIsBestEntry(es, frontier, x);
    var c := Chosen(es, frontier, x);
    BetterIsTotalOrder(c, Offer(frontier, e), c);
  }

  // ----- All levels

  lemma LevelEntered(es: set<Edge>, seed: SymbolId, n: nat)
    requires n > 0
    ensures forall x :: x in Level(es, seed, n) ==> Entering(es, Level(es, seed, n - 1), x) != {}
  {
    forall x | x in Level(es, seed, n) ensures Entering(es, Level(es, seed, n - 1), x) != {} {
      LevelHasEdge(es, seed, n, x);
      var e :| e in es && e.from == x && e.to in Level(es, seed, n - 1);
      assert e in Entering(es, Level(es, seed, n - 1), x);
    }
  }

  /** The confidence kept for every symbol of level `n`; the seed itself is exact. */
  ghost function Widths(es: set<Edge>, seed: SymbolId, n: nat): (w: map<SymbolId, Confidence>)
    requires UniqueKeys(es)
    ensures w.Keys == Level(es, seed, n)
  {
    if n == 0 then map[seed := Exact] else
      var before := Widths(es, seed, n - 1);
      LevelEntered(es, seed, n);
      map x | x in Level(es, seed, n) :: Chosen(es, before, x).pathConfidence
  }

  ghost function RowOf(es: set<Edge>, frontier: map<SymbolId, Confidence>, n: nat, x: SymbolId): ImpactStep
    requires UniqueKeys(es) && Entering(es, frontier.Keys, x) != {}
  {
    var c := Chosen(es, frontier, x);
    ImpactStep(x, c.parent, c.via, n, c.pathConfidence)
  }

  ghost function RowsOf(es: set<Edge>, frontier: map<SymbolId, Confidence>, n: nat, ids: seq<SymbolId>)
    : (r: seq<ImpactStep>)
    requires UniqueKeys(es)
    requires forall x :: x in ids ==> Entering(es, frontier.Keys, x) != {}
    ensures |r| == |ids|
    ensures forall i :: 0 <= i < |ids| ==> r[i] == RowOf(es, frontier, n, ids[i])
  {
    seq(|ids|, i requires 0 <= i < |ids| => RowOf(es, frontier, n, ids[i]))
  }

  /** The rows of level `n` in the order of their identities. */
  ghost function LevelRows(es: set<Edge>, seed: SymbolId, n: nat): (r: seq<ImpactStep>)
    requires UniqueKeys(es) && n > 0
    ensures |r| == |Level(es, seed, n)|
  {
    LevelEntered(es, seed, n);
    hide Level, UniqueKeys, RowOf, Widths;
    RowsOf(es, Widths(es, seed, n - 1), n, SortedIds(Level(es, seed, n)))
  }

  /** All rows at distance 1 to `d`. */
  ghost function Rows(es: set<Edge>, seed: SymbolId, d: nat): seq<ImpactStep>
    requires UniqueKeys(es)
  {
    if d == 0 then [] else Rows(es, seed, d - 1) + LevelRows(es, seed, d)
  }

  // ----- What a row means

  lemma WidthStep(es: set<Edge>, seed: SymbolId, n: nat, x: SymbolId)
    requires UniqueKeys(es) && n > 0 && x in Level(es, seed, n)
    ensures Entering(es, Level(es, seed, n - 1), x) != {}
    ensures var before := Widths(es, seed, n - 1);
            var c := Chosen(es, before, x);
            && c.via in es && c.via.from == x && c.via.to == c.parent && c.parent in before
            && c.pathConfidence == before[c.parent].Min(c.via.confidence)
            && Widths(es, seed, n)[x] == c.pathConfidence
  {
    hide Level, UniqueKeys, IsBestEntry;
    LevelEntered(es, seed, n);
  }

  lemma WidthOfSeed(es: set<Edge>, seed: SymbolId, x: SymbolId)
    requires UniqueKeys(es) && x in Level(es, seed, 0)
    ensures IsPath(es, x, [], seed) && Widths(es, seed, 0)[x] == Exact && IsBottleneck([], Exact)
  {
  }

  /** The kept confidence is attained by a shortest path. */
  lemma {:induction false} WidthAttained(es: set<Edge>, seed: SymbolId, n: nat, x: SymbolId) returns (p: seq<Edge>)
    requires UniqueKeys(es) && x in Level(es, seed, n)
    ensures IsPath(es, x, p, seed) && |p| == n && IsBottleneck(p, Widths(es, seed, n)[x])
    decreases n
  {
    hide *;
    if n == 0 {
      p := [];
      WidthOfSeed(es, seed, x);
    } else {
      WidthStep(es, seed, n, x);
      var c := Chosen(es, Widths(es, seed, n - 1), x);
      var tail := WidthAttained(es, seed, n - 1, c.parent);
      ConsPath(es, c.via, tail, seed);
      MinIsWeaker(Widths(es, seed, n - 1)[c.parent], c.via.confidence);
      ConsBottleneck(c.via, tail, Widths(es, seed, n - 1)[c.parent], c.pathConfidence);
      p := [c.via] + tail;
    }
  }

  /** A suffix of a shortest path is a shortest path. */
  lemma SuffixOfShortest(es: set<Edge>, x: SymbolId, p: seq<Edge>, seed: SymbolId)
    requires p != [] && IsPath(es, x, p, seed) && Distance(es, x, seed, |p|)
    ensures IsPath(es, p[0].to, p[1..], seed) && Distance(es, p[0].to, seed, |p| - 1)
  {
    forall q | IsPath(es, p[0].to, q, seed) ensures |p| - 1 <= |q| {
      ConsPath(es, p[0], q, seed);
    }
  }

  /** The kept confidence is at least what any edge from a symbol one step nearer offers. */
  lemma WidthOverEdge(es: set<Edge>, seed: SymbolId, n: nat, e: Edge)
    requires UniqueKeys(es) && n > 0 && e in es && e.from in Level(es, seed, n) && e.to in Level(es, seed, n - 1)
    ensures Widths(es, seed, n)[e.from].AtLeast(Widths(es, seed, n - 1)[e.to].Min(e.confidence))
  {
    hide Level, UniqueKeys;
    var before := Widths(es, seed, n - 1);
    assert e in Entering(es, before.Keys, e.from);
    ChosenIsBestEntry(es, before, e.from);
    var c := Chosen(es, before, e.from);
    assert c.via == e || c.IsBetterThan(Offer(before, e));
  }

  /** No shortest path is stronger throughout than the confidence kept. */
  lemma {:induction false} WidthMaximal(es: set<Edge>, seed: SymbolId, n: nat, x: SymbolId, p: seq<Edge>, t: Confidence)
    requires UniqueKeys(es) && x in Level(es, seed, n)
    requires IsPath(es, x, p, seed) && |p| == n && AllAtLeast(p, t)
    ensures Widths(es, seed, n)[x].AtLeast(t)
    decreases n
  {
    hide Level, UniqueKeys, Widths;
    if n == 0 {
      WidthOfSeed(es, seed, x);
    } else {
      LevelIsDistance(es, x, seed, n);
      SuffixOfShortest(es, x, p, seed);
      LevelIsDistance(es, p[0].to, seed, n - 1);
      WidthMaximal(es, seed, n - 1, p[0].to, p[1..], t);
      WidthOverEdge(es, seed, n, p[0]);
      MinIsWeaker(Widths(es, seed, n - 1)[p[0].to], p[0].confidence);
    }
  }

  /** `r` is the row of a symbol at distance `r.depth`. */
  ghost predicate IsRow(es: set<Edge>, seed: SymbolId, r: ImpactStep)
    requires UniqueKeys(es)
  {
    && r.depth > 0
    && r.symbol in Level(es, seed, r.depth)
    && var before := Widths(es, seed, r.depth - 1);
    && Entering(es, before.Keys, r.symbol) != {}
    && r == RowOf(es, before, r.depth, r.symbol)
  }

  /** Depth first, then identity. */
  ghost predicate RowBefore(a: ImpactStep, b: ImpactStep) {
    a.depth < b.depth || (a.depth == b.depth && CompareId(a.symbol, b.symbol) == Less)
  }

  lemma ShallowerIsBefore(a: ImpactStep, b: ImpactStep)
    requires a.depth < b.depth
    ensures RowBefore(a, b)
  {
  }

  lemma LevelRowsContain(es: set<Edge>, seed: SymbolId, n: nat, r: ImpactStep)
    requires UniqueKeys(es) && n > 0
    ensures r in LevelRows(es, seed, n) <==> IsRow(es, seed, r) && r.depth == n
  {
    hide Level, UniqueKeys, Widths, Chosen, CompareId, SortedIds, Entering;
    LevelEntered(es, seed, n);
    var ids := SortedIds(Level(es, seed, n));
    var rows := LevelRows(es, seed, n);
    if IsRow(es, seed, r) && r.depth == n {
      var i :| 0 <= i < |ids| && ids[i] == r.symbol;
      assert rows[i] == r;
    }
  }

  lemma LevelRowsOrdered(es: set<Edge>, seed: SymbolId, n: nat)
    requires UniqueKeys(es) && n > 0
    ensures var rows := LevelRows(es, seed, n);
            forall i, j :: 0 <= i < j < |rows| ==> RowBefore(rows[i], rows[j])
  {
    hide CompareId, Level, UniqueKeys, Widths, Chosen;
    LevelEntered(es, seed, n);
    SortedIdsOrdered(Level(es, seed, n));
  }

  lemma RowsUnfold(es: set<Edge>, seed: SymbolId, d: nat)
    requires UniqueKeys(es)
    ensures d == 0 ==> Rows(es, seed, d) == []
    ensures d > 0 ==> Rows(es, seed, d) == Rows(es, seed, d - 1) + LevelRows(es, seed, d)
  {
  }

  lemma RowIsDeep(es: set<Edge>, seed: SymbolId, r: ImpactStep)
    requires UniqueKeys(es)
    ensures IsRow(es, seed, r) ==> r.depth > 0
  {
  }

  lemma {:induction false} RowsContain(es: set<Edge>, seed: SymbolId, d: nat, r: ImpactStep)
    requires UniqueKeys(es)
    ensures r in Rows(es, seed, d) <==> IsRow(es, seed, r) && r.depth <= d
    decreases d
  {
    hide *;
    RowsUnfold(es, seed, d);
    RowIsDeep(es, seed, r);
    if d == 0 {
    } else {
      RowsContain(es, seed, d - 1, r);
      LevelRowsContain(es, seed, d, r);
    }
  }

  /** Rows are strictly ordered by shortest distance and then by identity. */
  lemma {:induction false} RowsOrdered(es: set<Edge>, seed: SymbolId, d: nat)
    requires UniqueKeys(es)
    ensures var rows := Rows(es, seed, d);
            forall i, j :: 0 <= i < j < |rows| ==> RowBefore(rows[i], rows[j])
    decreases d
  {
    hide *;
    RowsUnfold(es, seed, d);
    if d == 0 {
    } else {
      var before, last := Rows(es, seed, d - 1), LevelRows(es, seed, d);
      RowsOrdered(es, seed, d - 1);
      LevelRowsOrdered(es, seed, d);
      forall i, j | 0 <= i < |before| && 0 <= j < |last| ensures RowBefore(before[i], last[j]) {
        RowsContain(es, seed, d - 1, before[i]);
        LevelRowsContain(es, seed, d, last[j]);
        ShallowerIsBefore(before[i], last[j]);
      }
    }
  }

  // ----- Bounds

  lemma {:induction false} RowsPrefix(es: set<Edge>, seed: SymbolId, a: nat, b: nat)
    requires UniqueKeys(es) && a <= b
    ensures Rows(es, seed, a) <= Rows(es, seed, b)
    decreases b
  {
    hide *;
    if a == b {
    } else {
      RowsPrefix(es, seed, a, b - 1);
      RowsUnfold(es, seed, b);
    }
  }

  lemma EmptyLevelHasNoRows(es: set<Edge>, seed: SymbolId, n: nat)
    requires UniqueKeys(es) && n > 0 && Level(es, seed, n) == {}
    ensures LevelRows(es, seed, n) == []
  {
    hide Level, UniqueKeys;
  }

  /** Past an empty level there are no further rows. */
  lemma {:induction false} RowsStop(es: set<Edge>, seed: SymbolId, n: nat, d: nat)
    requires UniqueKeys(es) && Level(es, seed, n + 1) == {} && n <= d
    ensures Rows(es, seed, d) == Rows(es, seed, n)
    decreases d
  {
    hide *;
    if n == d {
    } else {
      EmptyLevelsStay(es, seed, n, d);
      EmptyLevelHasNoRows(es, seed, d);
      RowsStop(es, seed, n, d - 1);
      RowsUnfold(es, seed, d);
    }
  }

  ghost function Symbols(rows: seq<ImpactStep>): set<SymbolId> {
    set r | r in rows :: r.symbol
  }

  lemma RowOfSymbol(es: set<Edge>, seed: SymbolId, n: nat, x: SymbolId) returns (r: ImpactStep)
    requires UniqueKeys(es) && n > 0 && x in Level(es, seed, n)
    ensures IsRow(es, seed, r) && r.symbol == x && r.depth == n
  {
    hide Level, UniqueKeys, Widths, Chosen;
    LevelEntered(es, seed, n);
    r := RowOf(es, Widths(es, seed, n - 1), n, x);
  }

  /** The rows up to depth `d` list exactly the non-seed symbols within `d` edges. */
  lemma RowsListWithin(es: set<Edge>, seed: SymbolId, d: nat, x: SymbolId)
    requires UniqueKeys(es)
    ensures x in Symbols(Rows(es, seed, d)) <==> x in Within(es, seed, d) && x != seed
  {
    hide UniqueKeys, Rows, RowOf, Widths, Within;
    if x in Symbols(Rows(es, seed, d)) {
      var r :| r in Rows(es, seed, d) && r.symbol == x;
      RowsContain(es, seed, d, r);
      LevelInWithin(es, seed, r.depth, d);
      LevelsDisjoint(es, seed, 0, r.depth);
    }
    if x in Within(es, seed, d) && x != seed {
      var n := WithinHasLevel(es, seed, d, x);
      var r := RowOfSymbol(es, seed, n, x);
      RowsContain(es, seed, d, r);
    }
  }
}
