/**
 The reads of a traversal: what a reader may answer, which requests a traversal makes and in which
 order. The requests are determined by the graph, the bounds and the answers given so far.
 */
module Reads {
  import opened Graph
  import opened Reach
  import opened Widest
  import opened Paging
  import opened Relation

  const IMPACT_READ_PAGE_SIZE: nat := 256

  /** One request for incoming edges. */
  datatype Request = Request(id: SymbolId, filter: EdgeFilter, after: Option<EdgeKey>, limit: nat)

  /**
   The answer to the n-th request of a traversal. The ordinal lets a reader cut its pages
   differently, or fail, from one call to the next.
   */
  type Reader<!E> = (nat, Request) -> Result<GraphPage<Edge, EdgeKey>, E>

  /** Every successful answer is a page of the matching incoming edges in key order. */
  ghost predicate Obeys<E(!new)>(reader: Reader<E>, edges: map<EdgeKey, Edge>) {
    forall n: nat, q: Request :: q.limit > 0 && reader(n, q).Ok? ==>
      IsPage(MatchingAt(edges, To, q.id, q.filter), q.after, CompareKey, q.limit, reader(n, q).value)
  }

  ghost predicate AllAnswered<E>(reader: Reader<E>, trace: seq<Request>) {
    forall i :: 0 <= i < |trace| ==> reader(i, trace[i]).Ok?
  }

  /** The last request of the trace is the first one that failed, and it failed with `error`. */
  ghost predicate FailedWith<E>(reader: Reader<E>, trace: seq<Request>, error: E) {
    && trace != []
    && AllAnswered(reader, trace[..|trace| - 1])
    && reader(|trace| - 1, trace[|trace| - 1]) == Err(error)
  }

  // ----- The order of the requests

  /** The cursor that the answer to the last request gives, if any. */
  ghost function NextCursor<E>(reader: Reader<E>, trace: seq<Request>): Option<EdgeKey> {
    if trace == [] then None else
      var answer := reader(|trace| - 1, trace[|trace| - 1]);
      if answer.Ok? then answer.value.next else None
  }

  /** `q` continues the page that the trace ends with, or else starts a symbol anew. */
  ghost predicate Continues<E>(reader: Reader<E>, filter: EdgeFilter, trace: seq<Request>, q: Request) {
    && q.filter == filter && q.limit == IMPACT_READ_PAGE_SIZE
    && q.after == NextCursor(reader, trace)
    && (q.after.Some? ==> q.id == trace[|trace| - 1].id)
  }

  ghost predicate Follows<E>(reader: Reader<E>, filter: EdgeFilter, trace: seq<Request>) {
    forall i :: 0 <= i < |trace| ==> Continues(reader, filter, trace[..i], trace[i])
  }

  /** The symbols whose first page is asked for, in order. */
  ghost function Starts(trace: seq<Request>): seq<SymbolId> {
    if trace == [] then [] else
      var last := trace[|trace| - 1];
      Starts(trace[..|trace| - 1]) + if last.after.None? then [last.id] else []
  }

  lemma Ask<E>(reader: Reader<E>, filter: EdgeFilter, trace: seq<Request>, q: Request)
    requires Follows(reader, filter, trace) && Continues(reader, filter, trace, q)
    ensures Follows(reader, filter, trace + [q])
    ensures Starts(trace + [q]) == Starts(trace) + if q.after.None? then [q.id] else []
  {
    hide Continues;
    var asked := trace + [q];
    assert asked[..|trace|] == trace;
    forall i | 0 <= i < |asked| ensures Continues(reader, filter, asked[..i], asked[i]) {
      assert i < |trace| ==> asked[..i] == trace[..i];
    }
  }

  /** Between two symbols: every request was answered and no page is left to ask for. */
  ghost predicate IsReady<E>(reader: Reader<E>, filter: EdgeFilter, trace: seq<Request>) {
    Follows(reader, filter, trace) && AllAnswered(reader, trace) && NextCursor(reader, trace).None?
  }

  /** While the pages of `id` are read: `after` is where to go on as long as there is more. */
  ghost predicate IsReading<E>(reader: Reader<E>, filter: EdgeFilter, asked: seq<Request>, id: SymbolId, more: bool,
                               after: Option<EdgeKey>, trace: seq<Request>)
  {
    && asked <= trace && Follows(reader, filter, trace) && AllAnswered(reader, trace)
    && NextCursor(reader, trace) == (if more then after else None)
    && Starts(trace) == Starts(asked) + (if more && after.None? then [] else [id])
    && (more && after.Some? ==> trace != [] && trace[|trace| - 1].id == id)
  }

  /** The next page of `id` is the next request, answered or not. */
  lemma ReadOn<E>(reader: Reader<E>, filter: EdgeFilter, asked: seq<Request>, id: SymbolId,
                  after: Option<EdgeKey>, trace: seq<Request>)
    requires IsReading(reader, filter, asked, id, true, after, trace)
    ensures var q := Request(id, filter, after, IMPACT_READ_PAGE_SIZE);
            var answer, now := reader(|trace|, q), trace + [q];
            && asked <= now && Follows(reader, filter, now) && Starts(now) == Starts(asked) + [id]
            && (answer.Err? ==> FailedWith(reader, now, answer.error))
            && (answer.Ok? ==> IsReading(reader, filter, asked, id, answer.value.next.Some?, answer.value.next, now))
  {
    hide Follows, Starts;
    var q := Request(id, filter, after, IMPACT_READ_PAGE_SIZE);
    Ask(reader, filter, trace, q);
    assert (trace + [q])[..|trace|] == trace;
    assert Starts(trace) + [] == Starts(trace);
  }

  lemma ReadyFollows<E>(reader: Reader<E>, filter: EdgeFilter, trace: seq<Request>)
    requires IsReady(reader, filter, trace)
    ensures Follows(reader, filter, trace) && AllAnswered(reader, trace)
  {
  }

  lemma NothingAsked<E>(reader: Reader<E>, filter: EdgeFilter)
    ensures IsReady(reader, filter, []) && Starts([]) == []
  {
  }

  // ----- Which symbols a traversal reads

  /** The symbols of the levels below `n`, level by level in the order of their identities. */
  ghost function Visits(es: set<Edge>, seed: SymbolId, n: nat): seq<SymbolId> {
    if n == 0 then [] else Visits(es, seed, n - 1) + SortedIds(Level(es, seed, n - 1))
  }

  /** The deepest level, up to `d`, whose symbols and all nearer ones fit into `nodes` rows. */
  ghost function DeepestRead(es: set<Edge>, seed: SymbolId, d: nat, nodes: nat): nat
    requires UniqueKeys(es)
  {
    if d == 0 || |Rows(es, seed, d)| <= nodes then d else DeepestRead(es, seed, d - 1, nodes)
  }

  /** All symbols a traversal within the bounds reads. */
  ghost function Needed(es: set<Edge>, seed: SymbolId, d: nat, nodes: nat): seq<SymbolId>
    requires UniqueKeys(es)
  {
    Visits(es, seed, DeepestRead(es, seed, d, nodes) + 1)
  }

  lemma VisitsUnfold(es: set<Edge>, seed: SymbolId, n: nat)
    ensures Visits(es, seed, 0) == []
    ensures Visits(es, seed, n + 1) == Visits(es, seed, n) + SortedIds(Level(es, seed, n))
  {
  }

  lemma {:induction false} VisitsPrefix(es: set<Edge>, seed: SymbolId, a: nat, b: nat)
    requires a <= b
    ensures Visits(es, seed, a) <= Visits(es, seed, b)
    decreases b
  {
    hide SortedIds, Level;
    if a == b {
    } else {
      VisitsPrefix(es, seed, a, b - 1);
    }
  }

  lemma {:induction false} VisitsStop(es: set<Edge>, seed: SymbolId, n: nat, m: nat)
    requires Level(es, seed, n + 1) == {} && n <= m
    ensures Visits(es, seed, m + 1) == Visits(es, seed, n + 1)
    decreases m
  {
    hide SortedIds, Level;
    if n == m {
    } else {
      VisitsStop(es, seed, n, m - 1);
      EmptyLevelsStay(es, seed, n, m);
      VisitsUnfold(es, seed, m);
      assert SortedIds(Level(es, seed, m)) == [];
    }
  }

  lemma {:induction false} DeepestReadBounds(es: set<Edge>, seed: SymbolId, d: nat, nodes: nat, n: nat)
    requires UniqueKeys(es) && n <= d && |Rows(es, seed, n)| <= nodes
    ensures n <= DeepestRead(es, seed, d, nodes) <= d
    ensures n < d && |Rows(es, seed, n + 1)| > nodes ==> DeepestRead(es, seed, d, nodes) == n
    decreases d
  {
    hide UniqueKeys, Rows;
    if n == d {
    } else {
      RowsPrefix(es, seed, n + 1, d);
      if |Rows(es, seed, d)| > nodes {
        DeepestReadBounds(es, seed, d - 1, nodes, n);
      }
    }
  }

  /** Every level whose rows fit is read. */
  lemma LevelIsNeeded(es: set<Edge>, seed: SymbolId, d: nat, nodes: nat, n: nat)
    requires UniqueKeys(es) && n <= d && |Rows(es, seed, n)| <= nodes
    ensures Visits(es, seed, n + 1) <= Needed(es, seed, d, nodes)
  {
    hide UniqueKeys, Rows, Visits, DeepestRead;
    DeepestReadBounds(es, seed, d, nodes, n);
    VisitsPrefix(es, seed, n + 1, DeepestRead(es, seed, d, nodes) + 1);
  }

  /** Nothing is read behind an exhausted level, the depth bound or the level that no longer fits. */
  lemma LevelIsLast(es: set<Edge>, seed: SymbolId, d: nat, nodes: nat, n: nat)
    requires UniqueKeys(es) && n <= d && |Rows(es, seed, n)| <= nodes
    requires Level(es, seed, n + 1) == {} || n == d || |Rows(es, seed, n + 1)| > nodes
    ensures Visits(es, seed, n + 1) == Needed(es, seed, d, nodes)
  {
    hide UniqueKeys, Rows, Visits, DeepestRead, Level;
    DeepestReadBounds(es, seed, d, nodes, n);
    if Level(es, seed, n + 1) == {} {
      VisitsStop(es, seed, n, DeepestRead(es, seed, d, nodes));
    }
  }

  /** The symbols of the levels up to `n` are those with a path of at most `n` edges to the seed. */
  lemma {:induction false} VisitsAreWithin(es: set<Edge>, seed: SymbolId, n: nat, x: SymbolId)
    ensures x in Visits(es, seed, n + 1) <==> x in Within(es, seed, n)
    decreases n
  {
    hide SortedIds, Visits, Within, Level;
    VisitsUnfold(es, seed, n);
    if n == 0 {
      VisitsUnfold(es, seed, 0);
      SeedIsLevelZero(es, seed);
    } else {
      VisitsAreWithin(es, seed, n - 1, x);
      WithinStep(es, seed, n);
    }
  }

  // ----- The requests are determined

  /** A trace whose requests are all those of a traversal that reads `needed`, up to the first failure. */
  ghost predicate IsTrace<E>(reader: Reader<E>, filter: EdgeFilter, needed: seq<SymbolId>, trace: seq<Request>) {
    && Follows(reader, filter, trace) && Starts(trace) <= needed
    && (trace != [] ==> AllAnswered(reader, trace[..|trace| - 1]))
  }

  lemma {:induction false} StartsPrefix(trace: seq<Request>, i: nat)
    requires i <= |trace|
    ensures Starts(trace[..i]) <= Starts(trace)
    decreases |trace| - i
  {
    if i < |trace| {
      StartsPrefix(trace, i + 1);
      assert trace[..i + 1][..i] == trace[..i];
    } else {
      assert trace[..i] == trace;
    }
  }

  lemma NextStart(trace: seq<Request>, i: nat, needed: seq<SymbolId>)
    requires i < |trace| && Starts(trace) <= needed && trace[i].after.None?
    ensures |Starts(trace[..i])| < |needed| && needed[|Starts(trace[..i])|] == trace[i].id
  {
    StartsPrefix(trace, i + 1);
    assert trace[..i + 1][..i] == trace[..i];
  }

  /** Of two traces one is a prefix of the other: what is asked next leaves no choice. */
  lemma {:induction false} RequestsDetermined<E>(reader: Reader<E>, filter: EdgeFilter, needed: seq<SymbolId>,
                                                 a: seq<Request>, b: seq<Request>, n: nat)
    requires IsTrace(reader, filter, needed, a) && IsTrace(reader, filter, needed, b)
    requires n <= |a| && n <= |b|
    ensures a[..n] == b[..n]
  {
    hide NextCursor, AllAnswered;
    if n == 0 {
    } else {
      var i := n - 1;
      RequestsDetermined(reader, filter, needed, a, b, i);
      assert Continues(reader, filter, a[..i], a[i]) && Continues(reader, filter, b[..i], b[i]);
      if a[i].after.None? {
        NextStart(a, i, needed);
        NextStart(b, i, needed);
      }
      assert a[..n] == a[..i] + [a[i]] && b[..n] == b[..i] + [b[i]];
    }
  }
}
