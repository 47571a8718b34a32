/**
 What the rows of an impact answer say about the graph: shortest distances, widest shortest
 paths, the chosen edge, completeness, and the shortest-path forest formed by the parents.
 */
module Forest {
  import opened Order
  import opened Graph
  import opened Reach
  import opened Widest

  /** `c` is the bottleneck of some path of `n` edges from `x` to the seed, and no such path is stronger throughout. */
  ghost predicate WidestAt(es: set<Edge>, seed: SymbolId, n: nat, x: SymbolId, c: Confidence) {
    && (exists p :: IsPath(es, x, p, seed) && |p| == n && IsBottleneck(p, c))
    && (forall p, t :: IsPath(es, x, p, seed) && |p| == n && AllAtLeast(p, t) ==> c.AtLeast(t))
  }

  lemma IsRowFacts(es: set<Edge>, seed: SymbolId, r: ImpactStep)
    requires UniqueKeys(es) && IsRow(es, seed, r)
    ensures r.depth > 0 && r.symbol in Level(es, seed, r.depth)
    ensures r.pathConfidence == Widths(es, seed, r.depth)[r.symbol]
    ensures r.via in es && r.via.from == r.symbol && r.via.to == r.parent
    ensures var before := Widths(es, seed, r.depth - 1);
            && r.parent in before && r.pathConfidence == before[r.parent].Min(r.via.confidence)
    ensures var before := Widths(es, seed, r.depth - 1);
            Entering(es, before.Keys, r.symbol) != {} && r.via == Chosen(es, before, r.symbol).via
  {
    hide Level, UniqueKeys, IsBestEntry;
    WidthStep(es, seed, r.depth, r.symbol);
  }

  /** Every row carries the shortest distance and the widest shortest path of its symbol. */
  lemma RowMeaning(es: set<Edge>, seed: SymbolId, d: nat, r: ImpactStep)
    requires UniqueKeys(es) && r in Rows(es, seed, d)
    ensures 0 < r.depth <= d && Distance(es, r.symbol, seed, r.depth)
    ensures WidestAt(es, seed, r.depth, r.symbol, r.pathConfidence)
    ensures forall t: Confidence :: r.pathConfidence.AtLeast(t) <==>
              exists p: seq<Edge> :: IsPath(es, r.symbol, p, seed) && |p| == r.depth
                                     && forall e :: e in p ==> e.confidence.AtLeast(t)
    ensures r.via in es && r.via.from == r.symbol && r.via.to == r.parent
    ensures Distance(es, r.parent, seed, r.depth - 1)
  {
    hide Level, UniqueKeys, IsRow, Rows, Chosen, Widths, Distance;
    RowsContain(es, seed, d, r);
    IsRowFacts(es, seed, r);
    LevelIsDistance(es, r.symbol, seed, r.depth);
    LevelIsDistance(es, r.parent, seed, r.depth - 1);
    var p := WidthAttained(es, seed, r.depth, r.symbol);
    forall q, t | IsPath(es, r.symbol, q, seed) && |q| == r.depth && AllAtLeast(q, t)
      ensures r.pathConfidence.AtLeast(t)
    {
      WidthMaximal(es, seed, r.depth, r.symbol, q, t);
    }
    forall t: Confidence | r.pathConfidence.AtLeast(t) ensures AllAtLeast(p, t) {
    }
  }

  lemma WidestIsWidth(es: set<Edge>, seed: SymbolId, n: nat, x: SymbolId, c: Confidence)
    requires UniqueKeys(es) && x in Level(es, seed, n) && WidestAt(es, seed, n, x, c)
    ensures c == Widths(es, seed, n)[x]
  {
    hide Level, UniqueKeys, Widths, IsPath;
    var p := WidthAttained(es, seed, n, x);
    var q :| IsPath(es, x, q, seed) && |q| == n && IsBottleneck(q, c);
    WidthMaximal(es, seed, n, x, q, c);
    assert c.AtLeast(Widths(es, seed, n)[x]);
  }

  lemma DifferentKeys(es: set<Edge>, e: Edge, f: Edge)
    requires UniqueKeys(es) && e in es && f in es && e != f
    ensures CompareKey(e.Key(), f.Key()) != Equal
  {
    KeysTotallyOrdered();
  }

  /**
   The kept edge beats every other edge of the symbol toward a symbol one step nearer:
   a greater bottleneck, or the same bottleneck and a smaller edge key.
   */
  lemma RowKeepsBestEdge(es: set<Edge>, seed: SymbolId, d: nat, r: ImpactStep, n: nat, f: Edge, c: Confidence,
                         offered: Confidence)
    requires UniqueKeys(es) && r in Rows(es, seed, d) && r.depth == n + 1
    requires f in es && f.from == r.symbol && f != r.via
    requires Distance(es, f.to, seed, n) && WidestAt(es, seed, n, f.to, c) && IsWeaker(offered, c, f.confidence)
    ensures r.pathConfidence.AtLeast(offered)
    ensures r.pathConfidence == offered ==> CompareKey(r.via.Key(), f.Key()) == Less
  {
    hide Level, UniqueKeys, IsRow, Rows, Chosen, Widths, Distance, CompareKey, WidestAt, IsPath;
    MinIsWeaker(c, f.confidence);
    RowsContain(es, seed, d, r);
    IsRowFacts(es, seed, r);
    var before := Widths(es, seed, n);
    LevelIsDistance(es, f.to, seed, n);
    WidestIsWidth(es, seed, n, f.to, c);
    ChosenIsBestEntry(es, before, r.symbol);
    assert f in Entering(es, before.Keys, r.symbol);
    DifferentKeys(es, r.via, f);
  }

  /** The rows list exactly the symbols other than the seed with a path of at most `d` edges. */
  lemma RowsComplete(es: set<Edge>, seed: SymbolId, d: nat, x: SymbolId)
    requires UniqueKeys(es)
    ensures x in Symbols(Rows(es, seed, d)) <==> x != seed && exists p :: IsPath(es, x, p, seed) && |p| <= d
  {
    hide UniqueKeys, Rows, Symbols;
    RowsListWithin(es, seed, d, x);
    if x in Within(es, seed, d) {
      var p := WithinHasPath(es, x, seed, d);
    }
    if p :| IsPath(es, x, p, seed) && |p| <= d {
      PathBoundsWithin(es, x, p, seed);
      WithinMonotone(es, seed, |p|, d);
    }
  }

  /** No symbol has two rows. */
  lemma RowsDistinct(es: set<Edge>, seed: SymbolId, d: nat, i: nat, j: nat)
    requires UniqueKeys(es) && i < j < |Rows(es, seed, d)|
    ensures Rows(es, seed, d)[i].symbol != Rows(es, seed, d)[j].symbol
  {
    hide UniqueKeys, Rows, CompareId, Distance;
    var a, b := Rows(es, seed, d)[i], Rows(es, seed, d)[j];
    RowsOrdered(es, seed, d);
    IdsTotallyOrdered();
    RowMeaning(es, seed, d, a);
    RowMeaning(es, seed, d, b);
    if a.depth < b.depth {
      LevelIsDistance(es, a.symbol, seed, a.depth);
      LevelIsDistance(es, b.symbol, seed, b.depth);
      LevelsDisjoint(es, seed, a.depth, b.depth);
    }
  }

  // ----- The forest

  ghost predicate IsParentRow(rows: seq<ImpactStep>, i: nat, j: nat)
    requires i < |rows|
  {
    && j < i && rows[j].symbol == rows[i].parent && rows[j].depth + 1 == rows[i].depth
    && IsWeaker(rows[i].pathConfidence, rows[j].pathConfidence, rows[i].via.confidence)
  }

  /** Row `i` hangs from the seed, or from an earlier row that is one step nearer. */
  ghost predicate Hangs(rows: seq<ImpactStep>, seed: SymbolId, i: nat)
    requires i < |rows|
  {
    if rows[i].parent == seed then rows[i].depth == 1 && rows[i].pathConfidence == rows[i].via.confidence
    else exists j :: IsParentRow(rows, i, j)
  }

  lemma SeedOnlyAtZero(es: set<Edge>, seed: SymbolId, n: nat)
    requires UniqueKeys(es)
    ensures seed in Level(es, seed, n) <==> n == 0
    ensures seed in Widths(es, seed, 0) && Widths(es, seed, 0)[seed] == Exact
  {
    SeedIsLevelZero(es, seed);
    if n > 0 {
      LevelsDisjoint(es, seed, 0, n);
    }
  }

  lemma RowHangs(es: set<Edge>, seed: SymbolId, d: nat, i: nat)
    requires UniqueKeys(es) && i < |Rows(es, seed, d)|
    ensures Hangs(Rows(es, seed, d), seed, i)
  {
    hide UniqueKeys, Rows, IsRow, Chosen, Level, CompareId, Entering, RowOf;
    var rows := Rows(es, seed, d);
    var r := rows[i];
    RowsContain(es, seed, d, r);
    IsRowFacts(es, seed, r);
    SeedIsLevelZero(es, seed);
    SeedOnlyAtZero(es, seed, r.depth - 1);
    MinIsWeaker(Widths(es, seed, r.depth - 1)[r.parent], r.via.confidence);
    if r.parent != seed {
      var p := RowOfSymbol(es, seed, r.depth - 1, r.parent);
      RowsContain(es, seed, d, p);
      IsRowFacts(es, seed, p);
      var j :| 0 <= j < |rows| && rows[j] == p;
      RowsOrdered(es, seed, d);
      assert i < j ==> RowBefore(rows[i], rows[j]);
      assert IsParentRow(rows, i, j);
    }
  }

  /** Follow the parents of row `i` up to the seed. */
  ghost function Climb(rows: seq<ImpactStep>, seed: SymbolId, i: nat): seq<Edge>
    requires i < |rows| && forall k: nat :: k < |rows| ==> Hangs(rows, seed, k)
    decreases i
  {
    assert Hangs(rows, seed, i);
    if rows[i].parent == seed then [rows[i].via] else
      var j :| IsParentRow(rows, i, j);
      [rows[i].via] + Climb(rows, seed, j)
  }

  /** A path that visits no symbol twice and meets the seed only at its end. */
  ghost predicate Simple(p: seq<Edge>, seed: SymbolId) {
    && (forall i, j :: 0 <= i < j < |p| ==> p[i].from != p[j].from)
    && (forall i :: 0 <= i < |p| ==> p[i].from != seed)
  }

  lemma {:induction false} ClimbIsPath(es: set<Edge>, seed: SymbolId, rows: seq<ImpactStep>, i: nat)
    requires i < |rows| && forall k: nat :: k < |rows| ==> Hangs(rows, seed, k)
    requires forall r :: r in rows ==> r.via in es && r.via.from == r.symbol && r.via.to == r.parent
    ensures IsPath(es, rows[i].symbol, Climb(rows, seed, i), seed)
    ensures |Climb(rows, seed, i)| == rows[i].depth
    ensures IsBottleneck(Climb(rows, seed, i), rows[i].pathConfidence)
    decreases i
  {
    assert Hangs(rows, seed, i);
    if rows[i].parent == seed {
      ConsPath(es, rows[i].via, [], seed);
      ConsBottleneck(rows[i].via, [], Exact, rows[i].pathConfidence);
      assert [rows[i].via] + [] == [rows[i].via];
    } else {
      var j: nat :| IsParentRow(rows, i, j) && Climb(rows, seed, i) == [rows[i].via] + Climb(rows, seed, j);
      ClimbIsPath(es, seed, rows, j);
      ConsPath(es, rows[i].via, Climb(rows, seed, j), seed);
      ConsBottleneck(rows[i].via, Climb(rows, seed, j), rows[j].pathConfidence, rows[i].pathConfidence);
    }
  }

  /** Distances strictly fall along a shortest path, so it is simple. */
  lemma {:induction false} ShortestIsSimple(es: set<Edge>, x: SymbolId, p: seq<Edge>, seed: SymbolId)
    requires IsPath(es, x, p, seed) && Distance(es, x, seed, |p|)
    ensures forall i :: 0 <= i < |p| ==> Distance(es, p[i].from, seed, |p| - i)
    ensures Simple(p, seed)
    decreases |p|
  {
    if p == [] {
    } else {
      SuffixOfShortest(es, x, p, seed);
      var rest := p[1..];
      ShortestIsSimple(es, p[0].to, rest, seed);
      forall i | 0 <= i < |p| ensures Distance(es, p[i].from, seed, |p| - i) {
        assert i > 0 ==> p[i] == rest[i - 1];
      }
      assert IsPath(es, seed, [], seed);
      forall i, j | 0 <= i < j < |p| ensures p[i].from != p[j].from {
        assert Distance(es, p[i].from, seed, |p| - i) && Distance(es, p[j].from, seed, |p| - j);
      }
    }
  }

  /**
   The rows of every bounded answer form a shortest-path forest: following parents from a row
   stays among earlier rows and spells a simple path of exactly `depth` edges to the seed whose
   bottleneck is the row's confidence.
   */
  lemma RowsFormForest(es: set<Edge>, seed: SymbolId, d: nat, n: nat, i: nat)
    requires UniqueKeys(es) && i < n <= |Rows(es, seed, d)|
    ensures var rows := Rows(es, seed, d)[..n];
            && (forall k: nat :: k < n ==> Hangs(rows, seed, k))
            && var p := Climb(rows, seed, i);
            && IsPath(es, rows[i].symbol, p, seed) && |p| == rows[i].depth
            && IsBottleneck(p, rows[i].pathConfidence) && Simple(p, seed)
  {
    hide UniqueKeys, Rows, Distance, IsBottleneck, IsPath;
    var all := Rows(es, seed, d);
    var rows := all[..n];
    forall k: nat | k < n ensures Hangs(rows, seed, k) {
      RowHangs(es, seed, d, k);
      if rows[k].parent != seed {
        var j :| IsParentRow(all, k, j);
        assert IsParentRow(rows, k, j);
      }
    }
    forall r | r in rows ensures r.via in es && r.via.from == r.symbol && r.via.to == r.parent {
      RowMeaning(es, seed, d, r);
    }
    ClimbIsPath(es, seed, rows, i);
    RowMeaning(es, seed, d, rows[i]);
    ShortestIsSimple(es, rows[i].symbol, Climb(rows, seed, i), seed);
  }

  /** Smaller bounds give a row-for-row prefix of the answer for larger bounds. */
  lemma SmallerBoundsGivePrefix(es: set<Edge>, seed: SymbolId, d: nat, n: nat, largerD: nat, largerN: nat)
    requires UniqueKeys(es) && d <= largerD && n <= largerN
    ensures Take(Rows(es, seed, d), n) <= Take(Rows(es, seed, largerD), largerN)
  {
    hide Rows;
    RowsPrefix(es, seed, d, largerD);
  }

  lemma DistanceUnique(es: set<Edge>, x: SymbolId, seed: SymbolId, m: nat, n: nat)
    requires Distance(es, x, seed, m) && Distance(es, x, seed, n)
    ensures m == n
  {
  }

  /** What a bounded answer leaves out within the depth comes after every row it lists, and only when it is full. */
  lemma OmittedComeLater(es: set<Edge>, seed: SymbolId, d: nat, n: nat, x: SymbolId, k: nat)
    requires UniqueKeys(es) && x != seed && k <= d && Distance(es, x, seed, k)
    requires x !in Symbols(Take(Rows(es, seed, d), n))
    ensures var steps := Take(Rows(es, seed, d), n);
            |steps| == n && forall r :: r in steps ==> r.depth < k || (r.depth == k && CompareId(r.symbol, x) == Less)
  {
    hide Rows, UniqueKeys, IsPath, CompareId;
    RowsComplete(es, seed, d, x);
    var rows := Rows(es, seed, d);
    var j :| 0 <= j < |rows| && rows[j].symbol == x;
    RowMeaning(es, seed, d, rows[j]);
    DistanceUnique(es, x, seed, rows[j].depth, k);
    RowsOrdered(es, seed, d);
    assert forall i :: 0 <= i < |rows| && i < n ==> rows[i] in Take(rows, n);
  }
}
