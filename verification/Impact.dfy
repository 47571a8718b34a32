/**
 Bounded, deterministic reverse-reachability over a paged, fallible graph reader, proved
 equal to the reference rows of module Widest.
 */
module Impact {
  import opened Order
  import opened Graph
  import opened Reach
  import opened Widest
  import opened Forest
  import opened Paging
  import opened Relation
  import opened Reads

  const U32_MAX: nat := 0xFFFF_FFFF

  type u32 = n: nat | n <= U32_MAX

  datatype ImpactOptions = ImpactOptions(filter: EdgeFilter, maxDepth: u32, maxNodes: nat)

  datatype ImpactResult = ImpactResult(steps: seq<ImpactStep>, truncated: bool)

  datatype FrontierStep = FrontierStep(symbol: SymbolId, pathConfidence: Confidence)

  // ----- Folding candidates

  /**
   `candidates` keeps, for each unvisited source of an edge seen so far, the best offer among
   the edges seen so far.
   */
  ghost predicate Folded(candidates: map<SymbolId, Candidate>, seen: set<Edge>,
                         frontier: map<SymbolId, Confidence>, visited: set<SymbolId>)
  {
    && (forall e :: e in seen ==> e.to in frontier)
    && (forall x :: x in candidates <==> x !in visited && Entering(seen, frontier.Keys, x) != {})
    && (forall x :: x in candidates ==>
          IsBestEntry(seen, frontier, x, candidates[x].via) && candidates[x] == Offer(frontier, candidates[x].via))
  }

  /** The kept candidate of `symbol` after one more offer. */
  function Keep(candidates: map<SymbolId, Candidate>, symbol: SymbolId, candidate: Candidate)
    : map<SymbolId, Candidate>
  {
    if symbol in candidates then
      if candidate.IsBetterThan(candidates[symbol]) then candidates[symbol := candidate] else candidates
    else candidates[symbol := candidate]
  }

  lemma FoldSkip(candidates: map<SymbolId, Candidate>, seen: set<Edge>, frontier: map<SymbolId, Confidence>,
                 visited: set<SymbolId>, e: Edge)
    requires Folded(candidates, seen, frontier, visited) && e.to in frontier && e.from in visited
    ensures Folded(candidates, seen + {e}, frontier, visited)
  {
    hide Offer, Candidate.IsBetterThan;
    forall x | x !in visited ensures Entering(seen + {e}, frontier.Keys, x) == Entering(seen, frontier.Keys, x) {
    }
  }

  lemma FoldKeep(candidates: map<SymbolId, Candidate>, seen: set<Edge>, frontier: map<SymbolId, Confidence>,
                 visited: set<SymbolId>, e: Edge)
    requires Folded(candidates, seen, frontier, visited) && e.to in frontier && e.from !in visited
    requires UniqueKeys(seen + {e})
    ensures Folded(Keep(candidates, e.from, Offer(frontier, e)), seen + {e}, frontier, visited)
  {
    hide Candidate.IsBetterThan, Edge.Key;
    var after := Keep(candidates, e.from, Offer(frontier, e));
    forall x | x != e.from ensures Entering(seen + {e}, frontier.Keys, x) == Entering(seen, frontier.Keys, x) {
    }
    var entering := Entering(seen + {e}, frontier.Keys, e.from);
    assert e in entering;
    assert entering == Entering(seen, frontier.Keys, e.from) + {e};
    var offer := Offer(frontier, e);
    if e.from in candidates {
      var held := candidates[e.from];
      forall f | f in entering && f != after[e.from].via
        ensures after[e.from].IsBetterThan(Offer(frontier, f))
      {
        BetterIsTotalOrder(offer, held, Offer(frontier, f));
        BetterIsTotalOrder(held, offer, held);
        assert held.via.Key() == offer.via.Key() ==> held.via == e;
      }
    }
  }

  // ----- One parent

  /** The edges a traversal may use. */
  ghost function Usable(edges: map<EdgeKey, Edge>, filter: EdgeFilter): set<Edge> {
    set e | e in edges.Values && filter.AsksFor(e)
  }

  ghost function Targeting(es: set<Edge>, targets: set<SymbolId>): set<Edge> {
    set e | e in es && e.to in targets
  }

  lemma UsableHasUniqueKeys(edges: map<EdgeKey, Edge>, filter: EdgeFilter)
    requires WellKeyed(edges)
    ensures UniqueKeys(Usable(edges, filter))
  {
  }

  /** The edges of the first `k` values of a list. */
  ghost function EdgesOf(values: seq<(EdgeKey, Edge)>, k: nat): set<Edge>
    requires k <= |values|
  {
    set i | 0 <= i < k :: values[i].1
  }

  /** The matching list at a symbol holds exactly the usable edges into it. */
  lemma ListIsEntering(edges: map<EdgeKey, Edge>, filter: EdgeFilter, id: SymbolId)
    requires WellKeyed(edges)
    ensures var all := MatchingAt(edges, To, id, filter);
            EdgesOf(all, |all|) == Targeting(Usable(edges, filter), {id})
  {
    hide CompareKey, EdgeFilter.AsksFor;
    MatchingAtSpec(edges, To, id, filter);
    var all := MatchingAt(edges, To, id, filter);
    var entering := Targeting(Usable(edges, filter), {id});
    forall e ensures e in EdgesOf(all, |all|) <==> e in entering {
      if e in entering {
        assert (e.Key(), e) in all;
        var i :| 0 <= i < |all| && all[i] == (e.Key(), e);
        assert all[i].1 == e;
      }
      if e in EdgesOf(all, |all|) {
        var i :| 0 <= i < |all| && all[i].1 == e;
        assert all[i] in all;
        assert all[i] == (e.Key(), e);
      }
    }
  }

  /** Fold the items of one page, which are `all[k..k + |items|]`. */
  method AbsorbPage(items: seq<Edge>, parent: FrontierStep, visited: set<SymbolId>,
                    before: map<SymbolId, Candidate>,
                    ghost all: seq<(EdgeKey, Edge)>, ghost k: nat, ghost es: set<Edge>,
                    ghost frontier: map<SymbolId, Confidence>, ghost seen: set<Edge>)
    returns (candidates: map<SymbolId, Candidate>)
    requires UniqueKeys(es) && seen <= es
    requires parent.symbol in frontier && frontier[parent.symbol] == parent.pathConfidence
    requires k + |items| <= |all|
    requires forall i :: 0 <= i < |items| ==> items[i] == all[k + i].1
    requires forall i :: 0 <= i < |all| ==> all[i].1 in es && all[i].1.to == parent.symbol
    requires Folded(before, seen + EdgesOf(all, k), frontier, visited)
    ensures Folded(candidates, seen + EdgesOf(all, k + |items|), frontier, visited)
  {
    hide Folded, Candidate.IsBetterThan, Keep;
    candidates := before;
    for i := 0 to |items|
      invariant Folded(candidates, seen + EdgesOf(all, k + i), frontier, visited)
    {
      var edge := items[i];
      ghost var now := seen + EdgesOf(all, k + i);
      assert now + {edge} == seen + EdgesOf(all, k + i + 1);
      if edge.from in visited {
        FoldSkip(candidates, now, frontier, visited, edge);
      } else {
        var candidate := Candidate(parent.symbol, edge, parent.pathConfidence.Min(edge.confidence));
        FoldKeep(candidates, now, frontier, visited, edge);
        candidates := Keep(candidates, edge.from, candidate);
      }
    }
  }

  lemma PageFacts(values: seq<(EdgeKey, Edge)>, after: Option<EdgeKey>, page: GraphPage<Edge, EdgeKey>, k: nat)
    requires SortedCursors(values, CompareKey) && k <= |values|
    requires After(values, after, CompareKey) == values[k..]
    requires IsPage(values, after, CompareKey, IMPACT_READ_PAGE_SIZE, page)
    ensures k + |page.items| <= |values|
    ensures forall i :: 0 <= i < |page.items| ==> page.items[i] == values[k + i].1
    ensures page.next.None? ==> k + |page.items| == |values|
    ensures page.next.Some? ==> page.items != [] &&
                                After(values, page.next, CompareKey) == values[k + |page.items|..]
  {
    hide CompareKey;
    KeysTotallyOrdered();
    var n := |page.items|;
    if page.next.Some? {
      Resume(values, after, CompareKey, n);
      assert values[k..][n..] == values[k + n..];
    }
  }

  /** Read and fold every page of the edges into one frontier symbol. */
  method ExpandParent<E(!new)>(reader: Reader<E>, filter: EdgeFilter, parent: FrontierStep, visited: set<SymbolId>,
                               before: map<SymbolId, Candidate>, callsBefore: nat,
                               ghost edges: map<EdgeKey, Edge>, ghost frontier: map<SymbolId, Confidence>,
                               ghost seen: set<Edge>, ghost asked: seq<Request>)
    returns (r: Result<map<SymbolId, Candidate>, E>, calls: nat, ghost trace: seq<Request>)
    requires WellKeyed(edges) && Obeys(reader, edges)
    requires parent.symbol in frontier && frontier[parent.symbol] == parent.pathConfidence
    requires seen <= Usable(edges, filter) && Folded(before, seen, frontier, visited)
    requires callsBefore == |asked| && IsReady(reader, filter, asked)
    ensures asked <= trace && Follows(reader, filter, trace) && Starts(trace) == Starts(asked) + [parent.symbol]
    ensures r.Ok? ==> calls == |trace| && IsReady(reader, filter, trace)
    ensures r.Ok? ==> Folded(r.value, seen + Targeting(Usable(edges, filter), {parent.symbol}), frontier, visited)
    ensures r.Err? ==> FailedWith(reader, trace, r.error)
  {
    hide CompareKey, Folded, Usable, UniqueKeys, MatchingAt, After, IsPage, Follows, Starts, AllAnswered, FailedWith;
    ghost var all := MatchingAt(edges, To, parent.symbol, filter);
    ghost var es := Usable(edges, filter);
    UsableHasUniqueKeys(edges, filter);
    ListIsEntering(edges, filter, parent.symbol);
    MatchingAtSpec(edges, To, parent.symbol, filter);
    AfterNone(all, CompareKey);
    ghost var k: nat := 0;
    assert forall i :: 0 <= i < |all| ==> all[i].1 in EdgesOf(all, |all|);
    assert seen + EdgesOf(all, 0) == seen;

    var candidates := before;
    var after: Option<EdgeKey> := None;
    calls, trace := callsBefore, asked;
    var more := true;
    while more
      invariant k <= |all|
      invariant if more then After(all, after, CompareKey) == all[k..] else k == |all|
      invariant Folded(candidates, seen + EdgesOf(all, k), frontier, visited)
      invariant calls == |trace| && IsReading(reader, filter, asked, parent.symbol, more, after, trace)
      decreases more, |all| - k
    {
      var request := Request(parent.symbol, filter, after, IMPACT_READ_PAGE_SIZE);
      var answer := reader(calls, request);
      ReadOn(reader, filter, asked, parent.symbol, after, trace);
      trace := trace + [request];
      calls := calls + 1;
      if answer.Err? {
        return Err(answer.error), calls, trace;
      }
      var page := answer.value;
      PageFacts(all, after, page, k);
      candidates := AbsorbPage(page.items, parent, visited, candidates, all, k, es, frontier, seen);
      k := k + |page.items|;
      match page.next {
        case None => more := false;
        case Some(next) => after := Some(next);
      }
    }
    r := Ok(candidates);
  }

  // ----- One level

  /** The frontier lists the symbols of `widths` with their confidences. */
  ghost predicate Lists(frontier: seq<FrontierStep>, widths: map<SymbolId, Confidence>) {
    && (forall i :: 0 <= i < |frontier| ==>
          frontier[i].symbol in widths && widths[frontier[i].symbol] == frontier[i].pathConfidence)
    && (forall x :: x in widths ==> exists i :: 0 <= i < |frontier| && frontier[i].symbol == x)
  }

  function FrontierIds(frontier: seq<FrontierStep>): (ids: seq<SymbolId>)
    ensures |ids| == |frontier|
  {
    seq(|frontier|, i requires 0 <= i < |frontier| => frontier[i].symbol)
  }

  /** Usable edges into the first `k` frontier symbols. */
  ghost function Into(es: set<Edge>, frontier: seq<FrontierStep>, k: nat): set<Edge>
    requires k <= |frontier|
  {
    set e, i | e in es && 0 <= i < k && e.to == frontier[i].symbol :: e
  }

  lemma NothingFolded(widths: map<SymbolId, Confidence>, visited: set<SymbolId>)
    ensures Folded(map[], {}, widths, visited)
  {
  }

  method ExpandFrontier<E(!new)>(reader: Reader<E>, filter: EdgeFilter, frontier: seq<FrontierStep>,
                                 visited: set<SymbolId>, callsBefore: nat,
                                 ghost edges: map<EdgeKey, Edge>, ghost widths: map<SymbolId, Confidence>,
                                 ghost asked: seq<Request>)
    returns (r: Result<map<SymbolId, Candidate>, E>, calls: nat, ghost trace: seq<Request>)
    requires WellKeyed(edges) && Obeys(reader, edges) && Lists(frontier, widths)
    requires callsBefore == |asked| && IsReady(reader, filter, asked)
    ensures asked <= trace && Follows(reader, filter, trace)
    ensures r.Ok? ==> calls == |trace| && IsReady(reader, filter, trace)
    ensures r.Ok? ==> Starts(trace) == Starts(asked) + FrontierIds(frontier)
    ensures r.Ok? ==> Folded(r.value, Targeting(Usable(edges, filter), widths.Keys), widths, visited)
    ensures r.Err? ==> FailedWith(reader, trace, r.error)
    ensures r.Err? ==> Starts(trace) <= Starts(asked) + FrontierIds(frontier)
  {
    hide CompareKey, Folded, Usable, Obeys, IsReady, FailedWith, Follows, Starts;
    ghost var es := Usable(edges, filter);
    var candidates: map<SymbolId, Candidate> := map[];
    calls, trace := callsBefore, asked;
    assert Into(es, frontier, 0) == {};
    NothingFolded(widths, visited);
    for i := 0 to |frontier|
      invariant Folded(candidates, Into(es, frontier, i), widths, visited)
      invariant calls == |trace| && IsReady(reader, filter, trace) && asked <= trace
      invariant Starts(trace) == Starts(asked) + FrontierIds(frontier)[..i]
    {
      assert FrontierIds(frontier)[..i + 1] == FrontierIds(frontier)[..i] + [frontier[i].symbol];
      var expanded, made;
      expanded, made, trace := ExpandParent(reader, filter, frontier[i], visited, candidates, calls,
                                            edges, widths, Into(es, frontier, i), trace);
      if expanded.Err? {
        return Err(expanded.error), made, trace;
      }
      candidates, calls := expanded.value, made;
      assert Into(es, frontier, i + 1) ==
             Into(es, frontier, i) + Targeting(es, {frontier[i].symbol});
    }
    assert Into(es, frontier, |frontier|) == Targeting(es, widths.Keys);
    assert FrontierIds(frontier)[..|frontier|] == FrontierIds(frontier);
    ReadyFollows(reader, filter, trace);
    r := Ok(candidates);
  }

  /** After a whole level is folded the candidates are the next level with its chosen candidates. */
  lemma LevelFolded(es: set<Edge>, seed: SymbolId, n: nat, candidates: map<SymbolId, Candidate>)
    requires UniqueKeys(es)
    requires Folded(candidates, Targeting(es, Level(es, seed, n)), Widths(es, seed, n), Within(es, seed, n))
    ensures candidates.Keys == Level(es, seed, n + 1)
    ensures forall x :: x in candidates ==> Entering(es, Level(es, seed, n), x) != {}
    ensures forall x :: x in candidates ==> candidates[x] == Chosen(es, Widths(es, seed, n), x)
  {
    hide Chosen, Widths, Candidate.IsBetterThan, UniqueKeys, Within, Offer;
    var widths := Widths(es, seed, n);
    var seen := Targeting(es, widths.Keys);
    forall x ensures Entering(seen, widths.Keys, x) == Entering(es, widths.Keys, x) {
    }
    forall x ensures x in candidates <==> x in Level(es, seed, n + 1) {
      if x in candidates {
        var e :| e in Entering(es, widths.Keys, x);
        EdgeIntoLevel(es, seed, n, e);
      }
      if x in Level(es, seed, n + 1) {
        LevelEntered(es, seed, n + 1);
      }
    }
    forall x | x in candidates ensures candidates[x] == Chosen(es, widths, x) {
      BestEntryIsChosen(es, widths, x, candidates[x].via);
    }
  }

  /** The candidates are those of level `n + 1`, each one the chosen candidate of its symbol. */
  ghost predicate HoldsLevel(candidates: map<SymbolId, Candidate>, es: set<Edge>, seed: SymbolId, n: nat)
    requires UniqueKeys(es)
  {
    && candidates.Keys == Level(es, seed, n + 1)
    && forall x :: x in candidates ==>
         Entering(es, Level(es, seed, n), x) != {} && candidates[x] == Chosen(es, Widths(es, seed, n), x)
  }

  lemma FoldedHoldsLevel(candidates: map<SymbolId, Candidate>, es: set<Edge>, seed: SymbolId, n: nat)
    requires UniqueKeys(es)
    requires Folded(candidates, Targeting(es, Level(es, seed, n)), Widths(es, seed, n), Within(es, seed, n))
    ensures HoldsLevel(candidates, es, seed, n)
  {
    hide Level, UniqueKeys, Chosen, Widths, Folded;
    LevelFolded(es, seed, n, candidates);
  }

  lemma LevelRowAt(es: set<Edge>, seed: SymbolId, n: nat, i: nat)
    requires UniqueKeys(es)
    requires i < |SortedIds(Level(es, seed, n + 1))|
    ensures |LevelRows(es, seed, n + 1)| == |SortedIds(Level(es, seed, n + 1))|
    ensures var x := SortedIds(Level(es, seed, n + 1))[i];
            && Entering(es, Level(es, seed, n), x) != {}
            && LevelRows(es, seed, n + 1)[i] == RowOf(es, Widths(es, seed, n), n + 1, x)
            && x in Level(es, seed, n + 1)
            && Widths(es, seed, n + 1)[x] == Chosen(es, Widths(es, seed, n), x).pathConfidence
  {
    hide Level, UniqueKeys, Chosen, RowOf;
    LevelEntered(es, seed, n + 1);
    assert SortedIds(Level(es, seed, n + 1))[i] in Level(es, seed, n + 1);
  }

  lemma AcceptedRow(candidates: map<SymbolId, Candidate>, es: set<Edge>, seed: SymbolId, n: nat, i: nat)
    requires UniqueKeys(es) && HoldsLevel(candidates, es, seed, n)
    requires i < |SortedIds(candidates.Keys)|
    ensures |LevelRows(es, seed, n + 1)| == |SortedIds(candidates.Keys)|
    ensures var x := SortedIds(candidates.Keys)[i];
            && x in candidates && x in Widths(es, seed, n + 1)
            && var c := candidates[x];
            && LevelRows(es, seed, n + 1)[i] == ImpactStep(x, c.parent, c.via, n + 1, c.pathConfidence)
            && Widths(es, seed, n + 1)[x] == c.pathConfidence
  {
    hide Level, UniqueKeys, Chosen, Widths, LevelRows;
    LevelRowAt(es, seed, n, i);
  }

  lemma LevelHeld(candidates: map<SymbolId, Candidate>, es: set<Edge>, seed: SymbolId, n: nat)
    requires UniqueKeys(es) && HoldsLevel(candidates, es, seed, n)
    ensures candidates.Keys == Level(es, seed, n + 1)
  {
  }

  /** The frontier lists the symbols `ids` in order, with the confidences kept for them. */
  ghost predicate ListsInOrder(frontier: seq<FrontierStep>, ids: seq<SymbolId>, widths: map<SymbolId, Confidence>) {
    && |frontier| == |ids|
    && forall j :: 0 <= j < |ids| ==> ids[j] in widths && frontier[j] == FrontierStep(ids[j], widths[ids[j]])
  }

  lemma AllListed(frontier: seq<FrontierStep>, ids: seq<SymbolId>, widths: map<SymbolId, Confidence>)
    requires ListsInOrder(frontier, ids, widths) && forall x :: x in widths <==> x in ids
    ensures Lists(frontier, widths) && FrontierIds(frontier) == ids
  {
  }

  /** What the first `i` candidates leave behind: their rows, their identities and the frontier they make. */
  ghost predicate Accepted(candidates: map<SymbolId, Candidate>, es: set<Edge>, seed: SymbolId, n: nat, i: nat,
                           steps: seq<ImpactStep>, seen: set<SymbolId>, frontier: seq<FrontierStep>)
    requires UniqueKeys(es)
  {
    var ids, rows := SortedIds(candidates.Keys), LevelRows(es, seed, n + 1);
    && i <= |ids| == |rows|
    && steps == rows[..i]
    && (forall x :: x in seen <==> x in ids[..i])
    && ListsInOrder(frontier, ids[..i], Widths(es, seed, n + 1))
  }

  lemma AcceptNone(candidates: map<SymbolId, Candidate>, es: set<Edge>, seed: SymbolId, n: nat)
    requires UniqueKeys(es) && HoldsLevel(candidates, es, seed, n)
    ensures Accepted(candidates, es, seed, n, 0, [], {}, [])
  {
    hide Level, UniqueKeys, Chosen, Widths, LevelRows, SortedIds;
    assert |LevelRows(es, seed, n + 1)| == |Level(es, seed, n + 1)|;
  }

  /** One more candidate: its row, its identity and its frontier step. */
  lemma AcceptOne(candidates: map<SymbolId, Candidate>, es: set<Edge>, seed: SymbolId, n: nat, i: nat,
                  steps: seq<ImpactStep>, seen: set<SymbolId>, frontier: seq<FrontierStep>)
    requires UniqueKeys(es) && HoldsLevel(candidates, es, seed, n)
    requires i < |SortedIds(candidates.Keys)| && Accepted(candidates, es, seed, n, i, steps, seen, frontier)
    ensures var x := SortedIds(candidates.Keys)[i];
            && x in candidates
            && var c := candidates[x];
               Accepted(candidates, es, seed, n, i + 1,
                        steps + [ImpactStep(x, c.parent, c.via, n + 1, c.pathConfidence)],
                        seen + {x}, frontier + [FrontierStep(x, c.pathConfidence)])
  {
    hide HoldsLevel, UniqueKeys, Widths, LevelRows, SortedIds;
    AcceptedRow(candidates, es, seed, n, i);
    var ids, rows := SortedIds(candidates.Keys), LevelRows(es, seed, n + 1);
    assert rows[..i + 1] == rows[..i] + [rows[i]];
    assert ids[..i + 1] == ids[..i] + [ids[i]];
  }

  /** The first `taken` candidates are the whole level, or the rows that still fit. */
  lemma AcceptedAll(candidates: map<SymbolId, Candidate>, es: set<Edge>, seed: SymbolId, n: nat, taken: nat,
                    steps: seq<ImpactStep>, seen: set<SymbolId>, frontier: seq<FrontierStep>)
    requires UniqueKeys(es) && HoldsLevel(candidates, es, seed, n)
    requires Accepted(candidates, es, seed, n, taken, steps, seen, frontier)
    ensures |LevelRows(es, seed, n + 1)| == |candidates| && steps == LevelRows(es, seed, n + 1)[..taken]
    ensures taken == |candidates| ==>
              && steps == LevelRows(es, seed, n + 1) && seen == candidates.Keys
              && Lists(frontier, Widths(es, seed, n + 1))
              && FrontierIds(frontier) == SortedIds(Level(es, seed, n + 1))
  {
    hide Level, UniqueKeys, Chosen, Widths, LevelRows, SortedIds, Lists;
    var ids := SortedIds(candidates.Keys);
    assert |ids| == |candidates.Keys| == |candidates|;
    if taken == |candidates| {
      assert ids[..taken] == ids;
      AllListed(frontier, ids, Widths(es, seed, n + 1));
    }
  }

  /** Take the first `remaining` candidates in the order of their identities. */
  method Accept(candidates: map<SymbolId, Candidate>, remaining: nat, nextDepth: nat,
                visitedBefore: set<SymbolId>, stepsBefore: seq<ImpactStep>,
                ghost es: set<Edge>, ghost seed: SymbolId, ghost n: nat)
    returns (visited: set<SymbolId>, steps: seq<ImpactStep>, frontier: seq<FrontierStep>)
    requires UniqueKeys(es) && nextDepth == n + 1 && HoldsLevel(candidates, es, seed, n)
    ensures |candidates| <= remaining ==> steps == stepsBefore + LevelRows(es, seed, n + 1)
    ensures |candidates| > remaining ==>
              |LevelRows(es, seed, n + 1)| > remaining && steps == stepsBefore + LevelRows(es, seed, n + 1)[..remaining]
    ensures |candidates| <= remaining ==> visited == visitedBefore + candidates.Keys
    ensures |candidates| <= remaining ==> Lists(frontier, Widths(es, seed, n + 1))
    ensures |candidates| <= remaining ==> FrontierIds(frontier) == SortedIds(Level(es, seed, n + 1))
  {
    hide *;
    var ids := SortedIds(candidates.Keys);
    visited, steps, frontier := visitedBefore, stepsBefore, [];
    var taken := if |ids| <= remaining then |ids| else remaining;
    ghost var rows: seq<ImpactStep>, seen: set<SymbolId> := [], {};
    AcceptNone(candidates, es, seed, n);
    for i := 0 to taken
      invariant Accepted(candidates, es, seed, n, i, rows, seen, frontier)
      invariant steps == stepsBefore + rows && visited == visitedBefore + seen
    {
      AcceptOne(candidates, es, seed, n, i, rows, seen, frontier);
      var symbol := ids[i];
      var candidate := candidates[symbol];
      visited := visited + {symbol};
      frontier := frontier + [FrontierStep(symbol, candidate.pathConfidence)];
      var step := ImpactStep(symbol, candidate.parent, candidate.via, nextDepth, candidate.pathConfidence);
      steps := steps + [step];
      rows, seen := rows + [step], seen + {symbol};
    }
    AcceptedAll(candidates, es, seed, n, taken, rows, seen, frontier);
  }

  // ----- The traversal

  /** Some impacted symbol is missing from `steps`. */
  ghost predicate Omits(es: set<Edge>, seed: SymbolId, steps: seq<ImpactStep>) {
    exists x :: x != seed && Reaches(es, x, seed) && x !in Symbols(steps)
  }

  /** The mathematical answer: no pages, no frontier, no loop. */
  ghost function Answer(edges: map<EdgeKey, Edge>, seed: SymbolId, options: ImpactOptions): ImpactResult
    requires WellKeyed(edges)
  {
    UsableHasUniqueKeys(edges, options.filter);
    var es := Usable(edges, options.filter);
    var steps := Take(Rows(es, seed, options.maxDepth), options.maxNodes);
    ImpactResult(steps, Omits(es, seed, steps))
  }

  /** What a row of an answer says, in terms of the stored edges and paths along them alone. */
  lemma AnswerRowMeans(edges: map<EdgeKey, Edge>, seed: SymbolId, options: ImpactOptions, r: ImpactStep)
    requires WellKeyed(edges) && r in Answer(edges, seed, options).steps
    ensures r.via in edges.Values && options.filter.AsksFor(r.via)
    ensures r.via.from == r.symbol && r.via.to == r.parent && 0 < r.depth <= options.maxDepth
    ensures var es := Usable(edges, options.filter);
            && Distance(es, r.symbol, seed, r.depth) && Distance(es, r.parent, seed, r.depth - 1)
            && forall t: Confidence :: r.pathConfidence.AtLeast(t) <==>
                 exists p: seq<Edge> :: IsPath(es, r.symbol, p, seed) && |p| == r.depth
                                        && forall e :: e in p ==> e.confidence.AtLeast(t)
  {
    hide Rows, Distance, IsPath, UniqueKeys, EdgeFilter.AsksFor;
    UsableHasUniqueKeys(edges, options.filter);
    RowMeaning(Usable(edges, options.filter), seed, options.maxDepth, r);
  }

  /** The traversal ends with every reachable symbol listed. */
  lemma ExhaustedAnswer(edges: map<EdgeKey, Edge>, seed: SymbolId, options: ImpactOptions, n: nat)
    requires WellKeyed(edges) && n <= options.maxDepth
    requires UniqueKeys(Usable(edges, options.filter)) && Level(Usable(edges, options.filter), seed, n + 1) == {}
    requires |Rows(Usable(edges, options.filter), seed, n)| <= options.maxNodes
    ensures Answer(edges, seed, options) == ImpactResult(Rows(Usable(edges, options.filter), seed, n), false)
  {
    hide Level, Rows, UniqueKeys, Usable, Within, WellKeyed;
    var es := Usable(edges, options.filter);
    RowsStop(es, seed, n, options.maxDepth);
    var steps := Rows(es, seed, n);
    forall x | x != seed && Reaches(es, x, seed) ensures x in Symbols(steps) {
      var p :| IsPath(es, x, p, seed);
      PathBoundsWithin(es, x, p, seed);
      if |p| <= n {
        WithinMonotone(es, seed, |p|, n);
      } else {
        EmptyLevelCloses(es, seed, n, |p|);
      }
      RowsListWithin(es, seed, n, x);
    }
  }

  /** A symbol beyond the listed rows makes the answer truncated. */
  lemma OmittedAnswer(edges: map<EdgeKey, Edge>, seed: SymbolId, options: ImpactOptions, n: nat, x: SymbolId,
                      steps: seq<ImpactStep>)
    requires WellKeyed(edges) && UniqueKeys(Usable(edges, options.filter))
    requires x in Level(Usable(edges, options.filter), seed, n + 1) && x !in Symbols(steps)
    requires steps == Take(Rows(Usable(edges, options.filter), seed, options.maxDepth), options.maxNodes)
    ensures Answer(edges, seed, options) == ImpactResult(steps, true)
  {
    hide Level, Rows, UniqueKeys, Usable, Within, WellKeyed, Symbols;
    var es := Usable(edges, options.filter);
    LevelIsDistance(es, x, seed, n + 1);
    LevelsDisjoint(es, seed, 0, n + 1);
    SeedIsLevelZero(es, seed);
    var p :| IsPath(es, x, p, seed) && |p| == n + 1;
    assert Reaches(es, x, seed);
  }

  lemma Start(es: set<Edge>, seed: SymbolId)
    requires UniqueKeys(es)
    ensures Rows(es, seed, 0) == []
    ensures Lists([FrontierStep(seed, Exact)], Widths(es, seed, 0))
    ensures FrontierIds([FrontierStep(seed, Exact)]) == SortedIds(Level(es, seed, 0)) && Visits(es, seed, 0) == []
  {
    hide SortedIds;
    assert [FrontierStep(seed, Exact)][0].symbol == seed;
    var ids := SortedIds({seed});
    assert |ids| == |{seed}| && ids[0] in ids;
  }

  lemma NextWithin(es: set<Edge>, seed: SymbolId, n: nat)
    ensures Within(es, seed, n) + Level(es, seed, n + 1) == Within(es, seed, n + 1)
    ensures Within(es, seed, n) !! Level(es, seed, n + 1)
    ensures Within(es, seed, n + 1) <= Universe(es, seed)
  {
    WithinMonotone(es, seed, n, n + 1);
    WithinUniverse(es, seed, n + 1);
  }

  lemma FirstRowsCut(rows: seq<ImpactStep>, before: seq<ImpactStep>, level: seq<ImpactStep>, remaining: nat)
    requires before + level <= rows && remaining < |level|
    ensures Take(rows, |before| + remaining) == before + level[..remaining]
  {
    assert rows[..|before| + |level|] == before + level;
  }

  /** The first row left out belongs to level `n + 1` and its symbol is in no earlier row. */
  lemma OmittedRow(es: set<Edge>, seed: SymbolId, n: nat, remaining: nat)
    requires UniqueKeys(es) && remaining < |LevelRows(es, seed, n + 1)|
    ensures var x := LevelRows(es, seed, n + 1)[remaining].symbol;
            && x in Level(es, seed, n + 1)
            && x !in Symbols(Rows(es, seed, n) + LevelRows(es, seed, n + 1)[..remaining])
  {
    hide Level, UniqueKeys, Rows, LevelRows, RowOf, Widths, Within, CompareId;
    IdsTotallyOrdered();
    RowsUnfold(es, seed, n + 1);
    RowsOrdered(es, seed, n + 1);
    var rows := Rows(es, seed, n + 1);
    var i := |Rows(es, seed, n)| + remaining;
    var row := LevelRows(es, seed, n + 1)[remaining];
    assert row in LevelRows(es, seed, n + 1) && rows[i] == row;
    LevelRowsContain(es, seed, n + 1, row);
    var listed := Rows(es, seed, n) + LevelRows(es, seed, n + 1)[..remaining];
    assert listed == rows[..i];
    forall r | r in listed ensures r.symbol != row.symbol {
      var j :| 0 <= j < i && rows[j] == r;
      assert RowBefore(rows[j], rows[i]);
      RowsContain(es, seed, n + 1, r);
      if r.depth < row.depth {
        LevelsDisjoint(es, seed, r.depth, row.depth);
      }
    }
  }

  /** The node bound cuts inside level `n + 1`: what is kept are the first rows of the whole list. */
  lemma CutAnswer(edges: map<EdgeKey, Edge>, seed: SymbolId, options: ImpactOptions, n: nat, remaining: nat)
    requires WellKeyed(edges) && UniqueKeys(Usable(edges, options.filter)) && n < options.maxDepth
    requires |Rows(Usable(edges, options.filter), seed, n)| + remaining == options.maxNodes
    requires remaining < |LevelRows(Usable(edges, options.filter), seed, n + 1)|
    ensures Answer(edges, seed, options) ==
            ImpactResult(Rows(Usable(edges, options.filter), seed, n)
                         + LevelRows(Usable(edges, options.filter), seed, n + 1)[..remaining], true)
  {
    hide *;
    var es := Usable(edges, options.filter);
    var before, level := Rows(es, seed, n), LevelRows(es, seed, n + 1);
    var rows := Rows(es, seed, options.maxDepth);
    RowsUnfold(es, seed, n + 1);
    RowsPrefix(es, seed, n + 1, options.maxDepth);
    FirstRowsCut(rows, before, level, remaining);
    var steps := Take(rows, options.maxNodes);
    OmittedRow(es, seed, n, remaining);
    OmittedAnswer(edges, seed, options, n, level[remaining].symbol, steps);
  }

  lemma AllRowsFit(rows: seq<ImpactStep>, n: nat)
    requires |rows| <= n
    ensures Take(rows, n) == rows
  {
  }

  lemma DepthAnswer(edges: map<EdgeKey, Edge>, seed: SymbolId, options: ImpactOptions, x: SymbolId)
    requires WellKeyed(edges) && UniqueKeys(Usable(edges, options.filter))
    requires x in Level(Usable(edges, options.filter), seed, options.maxDepth + 1)
    requires |Rows(Usable(edges, options.filter), seed, options.maxDepth)| <= options.maxNodes
    ensures Answer(edges, seed, options) ==
            ImpactResult(Rows(Usable(edges, options.filter), seed, options.maxDepth), true)
  {
    hide *;
    var es := Usable(edges, options.filter);
    var steps := Rows(es, seed, options.maxDepth);
    RowsListWithin(es, seed, options.maxDepth, x);
    NextWithin(es, seed, options.maxDepth);
    AllRowsFit(steps, options.maxNodes);
    OmittedAnswer(edges, seed, options, options.maxDepth, x, steps);
  }

  /** Every request of the trace is one the traversal makes; an answered trace has made them all. */
  ghost predicate ReadsWhatIsNeeded<E>(reader: Reader<E>, edges: map<EdgeKey, Edge>, seed: SymbolId,
                                       options: ImpactOptions, trace: seq<Request>, complete: bool)
    requires WellKeyed(edges)
  {
    UsableHasUniqueKeys(edges, options.filter);
    var needed := Needed(Usable(edges, options.filter), seed, options.maxDepth, options.maxNodes);
    && Follows(reader, options.filter, trace)
    && (if complete then Starts(trace) == needed && NextCursor(reader, trace).None? else Starts(trace) <= needed)
  }

  /** A failure while a level is read that fits the bounds. */
  lemma FailedNeeding<E>(reader: Reader<E>, edges: map<EdgeKey, Edge>, seed: SymbolId, options: ImpactOptions,
                         trace: seq<Request>, n: nat)
    requires WellKeyed(edges) && n <= options.maxDepth && Follows(reader, options.filter, trace)
    requires UniqueKeys(Usable(edges, options.filter))
    requires |Rows(Usable(edges, options.filter), seed, n)| <= options.maxNodes
    requires Starts(trace) <= Visits(Usable(edges, options.filter), seed, n + 1)
    ensures ReadsWhatIsNeeded(reader, edges, seed, options, trace, false)
  {
    hide UniqueKeys, Usable, Rows, Follows, Starts, Needed, WellKeyed, Visits;
    LevelIsNeeded(Usable(edges, options.filter), seed, options.maxDepth, options.maxNodes, n);
  }

  /** The last level read is the one at which the traversal returns. */
  lemma ReadAll<E>(reader: Reader<E>, edges: map<EdgeKey, Edge>, seed: SymbolId, options: ImpactOptions,
                   trace: seq<Request>, n: nat)
    requires WellKeyed(edges) && n <= options.maxDepth && IsReady(reader, options.filter, trace)
    requires UniqueKeys(Usable(edges, options.filter))
    requires var es := Usable(edges, options.filter);
             && |Rows(es, seed, n)| <= options.maxNodes
             && (Level(es, seed, n + 1) == {} || n == options.maxDepth || |Rows(es, seed, n + 1)| > options.maxNodes)
             && Starts(trace) == Visits(es, seed, n + 1)
    ensures ReadsWhatIsNeeded(reader, edges, seed, options, trace, true)
  {
    hide UniqueKeys, Usable, Rows, Follows, Starts, Needed, WellKeyed, Visits, Level;
    LevelIsLast(Usable(edges, options.filter), seed, options.maxDepth, options.maxNodes, n);
  }

  /**
   Bounded breadth-first traversal of incoming edges from `seed`. For every reader that keeps
   the paging contract the result is the mathematical answer, after all pages of all symbols it
   needs have been read in order; the first of these reads that fails ends it with its error.
   */
  method Impact<E(!new)>(reader: Reader<E>, seed: SymbolId, options: ImpactOptions, ghost edges: map<EdgeKey, Edge>)
    returns (r: Result<ImpactResult, E>, ghost trace: seq<Request>)
    requires WellKeyed(edges) && Obeys(reader, edges)
    ensures r.Ok? ==> r.value.steps == Answer(edges, seed, options).steps
    ensures r.Ok? ==> r.value.truncated == Answer(edges, seed, options).truncated
    ensures r.Ok? ==> AllAnswered(reader, trace)
    ensures r.Err? ==> FailedWith(reader, trace, r.error)
    ensures ReadsWhatIsNeeded(reader, edges, seed, options, trace, r.Ok?)
  {
    hide *;
    ghost var es := Usable(edges, options.filter);
    UsableHasUniqueKeys(edges, options.filter);
    Start(es, seed);
    SeedIsLevelZero(es, seed);
    var steps: seq<ImpactStep> := [];
    var visited := {seed};
    var frontier := [FrontierStep(seed, Exact)];
    var depth: u32 := 0;
    var calls: nat := 0;
    trace := [];
    NothingAsked(reader, options.filter);

    while true
      invariant depth <= options.maxDepth
      invariant steps == Rows(es, seed, depth) && |steps| <= options.maxNodes
      invariant visited == Within(es, seed, depth)
      invariant Lists(frontier, Widths(es, seed, depth)) && FrontierIds(frontier) == SortedIds(Level(es, seed, depth))
      invariant calls == |trace| && IsReady(reader, options.filter, trace) && Starts(trace) == Visits(es, seed, depth)
      decreases Universe(es, seed) - visited
    {
      ghost var widths := Widths(es, seed, depth);
      VisitsUnfold(es, seed, depth);
      var expanded, made;
      expanded, made, trace := ExpandFrontier(reader, options.filter, frontier, visited, calls, edges, widths, trace);
      if expanded.Err? {
        FailedNeeding(reader, edges, seed, options, trace, depth);
        return Err(expanded.error), trace;
      }
      calls := made;
      var candidates := expanded.value;
      ReadyFollows(reader, options.filter, trace);
      FoldedHoldsLevel(candidates, es, seed, depth);
      LevelHeld(candidates, es, seed, depth);
      NextWithin(es, seed, depth);

      if candidates == map[] {
        assert candidates.Keys == {};
        ExhaustedAnswer(edges, seed, options, depth);
        ReadAll(reader, edges, seed, options, trace, depth);
        return Ok(ImpactResult(steps, false)), trace;
      }
      assert exists x :: x in candidates.Keys;
      ghost var next :| next in candidates.Keys;
      if depth >= options.maxDepth {
        DepthAnswer(edges, seed, options, next);
        ReadAll(reader, edges, seed, options, trace, depth);
        return Ok(ImpactResult(steps, true)), trace;
      }
      // The checked increment cannot fail below `maxDepth`.
      var nextDepth: u32 := depth + 1;

      var remaining := options.maxNodes - |steps|;
      var nodeBoundOmitsWork := |candidates| > remaining;
      ghost var before := visited;
      var nextFrontier;
      RowsUnfold(es, seed, nextDepth);
      visited, steps, nextFrontier := Accept(candidates, remaining, nextDepth, visited, steps, es, seed, depth);
      if nodeBoundOmitsWork {
        CutAnswer(edges, seed, options, depth, remaining);
        ReadAll(reader, edges, seed, options, trace, depth);
        return Ok(ImpactResult(steps, true)), trace;
      }
      assert next in Universe(es, seed) - before && next !in Universe(es, seed) - visited;
      frontier := nextFrontier;
      depth := nextDepth;
    }
  }

  // ----- Failing is determined by the reader

  /** Two failing runs with the same reader make the same requests and return the same error. */
  lemma SameFailure<E>(reader: Reader<E>, edges: map<EdgeKey, Edge>, seed: SymbolId, options: ImpactOptions,
                       a: seq<Request>, b: seq<Request>, errorA: E, errorB: E)
    requires WellKeyed(edges)
    requires ReadsWhatIsNeeded(reader, edges, seed, options, a, false) && FailedWith(reader, a, errorA)
    requires ReadsWhatIsNeeded(reader, edges, seed, options, b, false) && FailedWith(reader, b, errorB)
    ensures a == b && errorA == errorB
  {
    hide Follows, Starts, Needed, Usable, UniqueKeys, WellKeyed;
    UsableHasUniqueKeys(edges, options.filter);
    var needed := Needed(Usable(edges, options.filter), seed, options.maxDepth, options.maxNodes);
    var n := if |a| <= |b| then |a| else |b|;
    RequestsDetermined(reader, options.filter, needed, a, b, n);
    assert a[n - 1] == a[..n][n - 1] == b[..n][n - 1] == b[n - 1];
    assert a[..|a|] == a && b[..|b|] == b;
  }

  /** A run that answers all that is needed leaves no read that fails. */
  lemma FailureIsFinal<E>(reader: Reader<E>, edges: map<EdgeKey, Edge>, seed: SymbolId, options: ImpactOptions,
                          a: seq<Request>, b: seq<Request>, error: E)
    requires WellKeyed(edges)
    requires ReadsWhatIsNeeded(reader, edges, seed, options, a, false) && FailedWith(reader, a, error)
    ensures !(ReadsWhatIsNeeded(reader, edges, seed, options, b, true) && AllAnswered(reader, b))
  {
    hide Starts, Needed, Usable, UniqueKeys, WellKeyed;
    UsableHasUniqueKeys(edges, options.filter);
    var needed := Needed(Usable(edges, options.filter), seed, options.maxDepth, options.maxNodes);
    var n := if |a| <= |b| then |a| else |b|;
    if ReadsWhatIsNeeded(reader, edges, seed, options, b, true) && AllAnswered(reader, b) {
      RequestsDetermined(reader, options.filter, needed, a, b, n);
      assert a[..|a|] == a && b[..|b|] == b;
      assert forall i :: 0 <= i < n ==> a[i] == a[..n][i] && b[i] == b[..n][i];
      if n < |a| {
        NextStart(a, n, needed);
      }
    }
  }
}
