# code2graph: a verified model

code2graph extracts lexical facts from source files, resolves them to a graph of symbols and
confidence-graded edges, answers queries over that graph, and scores the graph against ground truth.
This project models four parts of it and proves what they promise.

**Impact queries** (`query/`). `impact` walks edges backwards from a seed, level by level, reading
pages of at most 256 edges from a fallible reader. The method `Impact.Impact` has the loops, the
candidate map, the frontier and the early returns of the original, and is proved equal to a
definition without pages, frontiers or loops: the first `max_nodes` rows of the list of all
reverse-reachable symbols within `max_depth`, ordered by shortest distance and then identity, with
`truncated` true exactly when some reachable symbol is missing. `Forest` and `Widest` prove what
those rows mean in terms of paths alone: shortest distances, greatest bottleneck over all shortest
paths, the unique best edge, and a shortest-path forest. The reader is any function that keeps the
paging contract and may cut its pages differently, or fail, on every call; since the answer does not
mention pages, it does not depend on them. Module `Reads` fixes the requests too: which symbols are
read, in which order, and by which cursors; an error is that of the first of them that fails.
Termination holds on all graphs, with cycles and with the greatest depth bound: every further level
adds a symbol to a finite universe.

**The graph index** (`query/src/index`). `Index.GraphIndex` is a class with the eleven fields of the
original and the function that renders identities. It is built from a graph, and updated by a scope
delta that is checked, applied to a copy and swapped in. `Valid()` ties eight derived fields to the
facts, and `SameFactsSameIndex` shows the derived fields are a function of the facts; by
`Rebuild.ApplyAndRebuild` an index updated by any sequence of deltas equals one rebuilt from scratch.
No accepted delta can hit an internal-invariant error half-way.

**Lexical scopes, bindings and references** (`src/extract`). The scope walks of C, C++ and Go are one
walk over a rule table per language. Their scope vectors are laminar with preorder ids; the innermost
scope of a byte is the last container, and the scopes around a byte are one ancestor chain. On top of
this come the C bindings, the Read and Write collectors of C and C++ and their attachment to scopes, and
the validation of the facts so extracted.

**Evaluation accounting** (`eval/`). The two scorers, the recall diagnosis, the sampler of structural
misses and the corpus aggregates are loops over maps and sets, each proved against set cardinalities.
The diagnosis and the scorer count the same misses; the sampler and the diagnosis count the same
structural misses; tightening the confidence tier never claims more and never misses less; totals do
not depend on the order of cases and are the merge of the totals per language. The diagnoses merged per
language stay balanced and agree with the scorecards of the same cases.

## Where the code and its documentation disagree

- `src/extract/c.rs:658-661` says that a bare declared name is never a Read. Only the first child with
  the declarator field is looked up (lines 698-700), so in `int aaa,bbb;` the name `bbb` is a Read.
  `References.BareDeclaratorIsRead` gives the exact condition, and `References.SecondDeclaratorIsRead`
  the example. In C++ there is no arm for a bare declarator of a declaration at all.
- `eval/src/score.rs:96` says precision rises with the tier. `Precision.PrecisionCanFall` is a graph of
  two edges on which it falls from one half to nothing. `Precision.OraclePrecisionExactly` says for which
  graphs no oracle can see it fall: exactly those that locate the same edges at both tiers or claim
  nothing at the higher one. `Precision.ExpectedPrecisionExactly` does the same for role-typed expectations.

## An assumption and its exact scope

`eval/src/score.rs:193-194` states openly that file and binding names hold no `@`. The binding name may hold
`@` freely: for a known file and a byte within it the location is read back if and only if the file name
holds none (`Lines.LocalDefLocRoundTrip`); `Lines.LocalDefLocExactly` says what is read back otherwise.

## Model

| member | source | states |
|---|---|---|
| `Impact.Impact` | query/src/impact.rs:81-180 | for every reader keeping the paging contract, on every graph and all bounds, the traversal terminates; its rows and its `truncated` flag equal the page-free definition `Answer` once all pages of exactly the needed symbols were read in level order; otherwise it returns the error of the first of these reads that failed |
| `Reads.RequestsDetermined` | query/src/impact.rs:97-129 | the requests of a traversal are determined by the graph, the bounds and the answers so far: of two traces one is a prefix of the other, so there is one first failing read |
| `Impact.SameFailure` | query/src/impact.rs:98-105 | two failing runs with the same reader make the same requests and return the same error |
| `Impact.FailureIsFinal` | query/src/impact.rs:98-105 | where one run fails no run succeeds: success means that no needed read fails |
| `Reads.LevelIsLast` | query/src/impact.rs:131-176 | the symbols read are exactly those up to the deepest level whose rows fit both bounds, or all reachable ones |
| `Reads.VisitsAreWithin` | query/src/impact.rs:97-106 | the symbols read up to a level are those within that many edges of the seed |
| `Reads.ReadOn` | query/src/impact.rs:98-106 | each request continues the page before it by its cursor, or starts the next symbol; a failing answer ends the trace |
| `Impact.ExpandParent` | query/src/impact.rs:98-128 | following the pages of one frontier symbol, in order behind the requests already made, folds each usable edge into it exactly once, however the pages are cut, or stops at the first failing read |
| `Impact.ExpandFrontier` | query/src/impact.rs:96-129 | the frontier symbols are read in order; then the candidates are the best offers among all usable edges into the frontier from unvisited symbols, independent of page order; a failure is that of the first failing read among them |
| `Impact.FoldKeep` | query/src/impact.rs:111-124 | replacing a candidate only by a better one keeps the map equal to the best offer over all edges seen |
| `Impact.LevelFolded` | query/src/impact.rs:96-129 | the candidates of a level are exactly the symbols at the next shortest distance, each with its unique best edge |
| `Impact.Accept` | query/src/impact.rs:154-170 | taking candidates in identity order appends the next level's rows, or exactly the first `remaining` of them, and makes the next frontier in that order |
| `Impact.ExhaustedAnswer` | query/src/impact.rs:131-136 | an empty candidate map means every reachable symbol is listed and nothing is truncated |
| `Impact.DepthAnswer` | query/src/impact.rs:138-152 | candidates left at the depth bound mean that some reachable symbol is missing, so `truncated` is right; depth zero included |
| `Impact.CutAnswer` | query/src/impact.rs:154-176 | more candidates than room means the kept rows are the first `max_nodes` and something is missing; a bound hit exactly is not reported as truncation |
| `Impact.AnswerRowMeans` | query/src/impact.rs:25-38 | every row of an answer has a stored edge the filter asks for from its symbol to its parent, the shortest distance, and a confidence of at least `t` exactly when some shortest path has every edge at least `t` |
| `Widest.BetterIsTotalOrder` | query/src/impact.rs:58-67 | the preference on candidates is irreflexive, asymmetric and transitive, and decides between any two with different edge keys |
| `Widest.BestUnique` | query/src/impact.rs:116-124 | a set of candidates with distinct keys has at most one best member, so the fold's result does not depend on the order of offers |
| `Widest.WidthAttained` | query/src/impact.rs:107-115 | the kept path confidence is the weakest edge confidence of some shortest path to the seed |
| `Widest.WidthMaximal` | query/src/impact.rs:107-125 | a shortest path whose edges all have at least some confidence bounds the kept confidence from below, although one candidate per symbol is kept per level |
| `Widest.RowsOrdered` | query/src/impact.rs:157-170 | rows come by depth and then by identity, strictly |
| `Reach.LevelIsDistance` | query/src/impact.rs:95-179 | breadth-first levels are exactly the sets of symbols at each shortest reverse distance |
| `Forest.RowMeaning` | query/src/impact.rs:25-38 | each row carries the shortest distance, an edge of the graph from the symbol to a parent one step nearer, and a confidence of at least `t` exactly when some path of that many edges has every edge at least `t` |
| `Forest.RowKeepsBestEdge` | query/src/impact.rs:74-80 | the kept edge beats each other edge toward a symbol one step nearer: the weaker of that edge and the widest path behind it is below the row's confidence, or equal with a larger edge key |
| `Forest.RowsComplete` | query/src/impact.rs:74-80 | the unbounded-size rows list exactly the symbols other than the seed with a path of at most `max_depth` edges |
| `Forest.RowsDistinct` | query/src/impact.rs:74-80 | each identity has at most one row |
| `Forest.OmittedComeLater` | query/src/impact.rs:154-176 | a symbol within the depth is left out only when the answer is full, and it comes after every row listed |
| `Forest.RowsFormForest` | query/src/impact.rs:157-170 | following parents from any row stays among earlier rows and spells a simple path of `depth` edges to the seed whose weakest edge has the row's confidence |
| `Forest.SmallerBoundsGivePrefix` | query/src/impact.rs:138-176 | smaller depth and node bounds give a row-for-row prefix of the answer for larger ones |
| `Reader.ImpactInMemory` | query/src/impact.rs:182-190 | the infallible query over a valid index gives `Answer` on the index's edges |
| `Paging.PageByKeepsContract` | query/src/read.rs:106-123 | a page is an initial part of the values after the cursor, within the limit, and points on exactly when something was cut |
| `Paging.AfterIsSuffix` | query/src/read.rs:112-115 | in a sorted list the values after any cursor, present or not, are a suffix |
| `Paging.Resume` | query/src/read.rs:117-118 | continuing from the cursor of a page's last item resumes right behind it |
| `Paging.FollowYieldsSuffix` | query/src/read.rs:106-123 | following next cursors with any positive page sizes from any start yields the suffix after the start, once each, in order |
| `Reader.AdjacentPagesDeliver` | query/src/read.rs:246-276 | the pages of one endpoint concatenate to its matching edges, each once, in strict key order |
| `Reader.FilePagesDeliver` | query/src/read.rs:229-244 | the pages of one file deliver exactly its matching edges, each once, in strict key order |
| `Reader.EdgesListSpec` | query/src/read.rs:213-227 | the list behind the edge pages is strictly sorted and holds exactly the matching edges |
| `Reader.IndexObeys` | query/src/read.rs:246-260 | the in-memory incoming page keeps the contract the traversal relies on |
| `Relation.MatchingAtSpec` | query/src/relation.rs:45-71 | the filtered list at an endpoint holds exactly the edges there that the filter asks for, strictly sorted by key |
| `Relation.AdjacentIsMatching` | query/src/relation.rs:73-87 | reading a valid adjacency map gives exactly that list; an unknown identity gives the empty one |
| `Graph.EdgeFilter.MatchesWhatIsAskedFor` | query/src/relation.rs:45-51 | a filter lets through exactly the edges with the role and provenance asked for and at least the confidence |
| `Graph.ConfidencesFormChain` | query/src/impact.rs:58-67 | heuristic, name only, scoped, exact, from weak to strong |
| `Graph.IdsTotallyOrdered` | src/symbol/id.rs:159-195 | the structural order of identities is a strict total order consistent with equality |
| `Graph.KeysTotallyOrdered` | src/graph/types.rs:500-519 | the order of edge keys is a strict total order consistent with equality of keys |
| `Order.StringsOrderedByFirstDifference` | src/symbol/id.rs:159-195 | strings are ordered by the first character that differs, a proper prefix first |
| `Graph.IdsOrderedByCoordinates` | src/symbol/id.rs:159-195 | global identities precede local ones; each coordinate in declaration order counts only where all before it agree |
| `Graph.DescriptorKindsRank` | src/symbol/descriptor.rs:96-108 | descriptor kinds rank in their documented order |
| `Graph.KeysTellEdges` | src/graph/types.rs:485-498 | two edges have the same key exactly when they agree in all but confidence, line and column |
| `Graph.KeysOrderedByCoordinates` | src/graph/types.rs:500-519 | edge keys are ordered by source, target, role, file, byte and provenance, each where all before it agree |
| `Graph.RanksFollowDeclaration` | src/graph/types.rs:165-169 | roles and provenances rank as they are declared |
| `Order.SortedUnique` | query/src/index/build.rs:111-128 | a strictly sorted list is determined by its elements, so the order in which buckets were filled leaves no trace |
| `Index.Build` | query/src/index/build.rs:45-131 | building succeeds exactly when identities and edge keys are unique, gives a valid index that holds exactly the graph's definitions and edges, and otherwise names the first repeat |
| `Index.GraphIndex.UpsertSymbol` | query/src/index/update.rs:59-90 | inserts or replaces one definition and keeps every derived field right; it cannot fail on a valid index |
| `Index.GraphIndex.RemoveSymbol` | query/src/index/update.rs:92-115 | removes exactly one definition from every bucket, and the identity itself unless an edge still names it |
| `Index.GraphIndex.UpsertEdge` | query/src/index/update.rs:117-137 | adds an edge and counts both endpoints, or replaces the edge with the same key without counting again |
| `Index.GraphIndex.RemoveEdge` | query/src/index/update.rs:139-147 | removes exactly one edge and releases both endpoints, self-edges included |
| `Index.GraphIndex.RemoveEndpoint` | query/src/index/update.rs:168-183 | one reference less, and the identity is forgotten with its last reference unless it is defined; an invariant error, and no change, if no reference is counted |
| `Index.GraphIndex.RemoveKnownIfUnreferenced` | query/src/index/update.rs:185-200 | forgets exactly an identity that is neither defined nor an endpoint; an invariant error, and no change, if it was not known |
| `Index.GraphIndex.ValidateSymbols` | query/src/index/update.rs:243-261 | accepts exactly when removals are distinct and present and upserts are distinct; otherwise reports the first faulty removal or, only if there is none, the first repeated upsert |
| `Index.GraphIndex.ValidateEdges` | query/src/index/update.rs:263-282 | the same for edges by key |
| `Index.GraphIndex.ApplyScopeDelta` | query/src/index/update.rs:24-57 | all or nothing: accepted exactly when the lineage and both validations accept; then every upserted item has its new value, every other one is present exactly when it was and is not removed, with its old value; a rejection changes nothing, is never an internal error, and carries the error of the first of the five checks that fails |
| `Index.RefcountsAfterInsert` | query/src/index/update.rs:117-137 | counting both endpoints of a new edge keeps every count equal to the number of edge ends, twice for a self-edge |
| `Index.RefcountsBeforeRemove` | query/src/index/update.rs:139-147 | dropping both endpoints of a present edge never underflows and keeps the counts right |
| `Index.SameFactsSameIndex` | query/src/index/build.rs:15-28 | two valid indexes of the same facts agree in every derived field |
| `Rebuild.ApplyAll` | query/src/index/update.rs:24-57 | a sequence of deltas, each accepted or rejected on the facts before it, gives exactly the folded facts |
| `Rebuild.EachDeltaMeans` | query/src/index/update.rs:24-57 | each accepted delta of a sequence upserts and removes exactly what it names, and each rejected one changes nothing |
| `Rebuild.BuildAgain` | query/src/index/build.rs:45-131 | building any graph of an index's facts, in whatever order it lists them, gives the same index in every field |
| `Rebuild.ApplyAndRebuild` | query/src/index/update.rs:746-881 | after any sequence of deltas the index equals, field by field, one rebuilt from scratch |
| `Index.CheckRemoved` | query/src/index/update.rs:244-252 | finds the first removal that repeats or is missing, and says which |
| `Buckets.InsertBucketOk` | query/src/index/update.rs:202-215 | inserting a new member keeps the buckets sorted and exact, and never reports a duplicate |
| `Buckets.RemoveBucketOk` | query/src/index/update.rs:217-241 | removing a member keeps the buckets exact, drops an emptied bucket, and never reports a missing entry |
| `Buckets.SortLoose` | query/src/index/build.rs:111-128 | sorting buckets filled in any order gives the unique sorted buckets of the same members |
| `Scopes.CollectScopes` | src/extract/go.rs:713-767 | behind the file scope there is one scope for each reached node of the listed kinds, in preorder, with its span: C functions and blocks; C++ functions, lambdas, types, namespaces and blocks; Go functions, methods, function literals and blocks; bodies are peeled |
| `Scopes.ScopesOpenByKind` | src/extract/cpp.rs:674-729 | the scope vectors of the three languages open scopes exactly at those kinds, without the rule table |
| `Scopes.OpeningsAreReached` | src/extract/c.rs:448-478 | the scope-opening nodes are exactly the reached nodes of the listed kinds |
| `Scopes.ScopeVector.Dfs` | src/extract/cpp.rs:674-729 | the walk appends exactly the scopes of one subtree and disturbs none before them |
| `Laminar.WalkKeepsLaminar` | src/extract/c.rs:448-478 | walking a node under a scope keeps the family laminar, for the C, C++ and Go rules alike |
| `Laminar.ScopesAreLaminar` | src/extract/go.rs:713-767 | on every well-formed tree scope 0 covers the file, other parents come earlier and cover their children, and scopes not nested are apart |
| `Laminar.AncestorsCover` | src/extract/cpp.rs:647-729 | an ancestor's span covers its descendant's |
| `Laminar.SiblingsDisjoint` | src/extract/c.rs:448-478 | scopes with one parent share no byte and come in source order |
| `Laminar.InnermostIsLast` | src/extract/support.rs:592-605 | smallest span with ties to the higher index is the last container |
| `Laminar.InnermostChain` | src/extract/support.rs:592-605 | the scopes around a byte are exactly the innermost one and its ancestors; there is one exactly for the bytes of the file |
| `Laminar.OwnScopeExactly` | src/extract/support.rs:592-605 | a byte's innermost scope is that of a scope-opening node exactly when that node is the last one around it |
| `Laminar.OwnScope` | src/extract/c.rs:448-478 | a byte of a scope-opening node outside everything visited under it has that node's scope as innermost |
| `Bindings.BindingVector.Dfs` | src/extract/c.rs:497-540 | the traversal appends exactly `BindingsOf` the subtree |
| `Bindings.BindingVector.CollectParams` | src/extract/c.rs:545-561 | appends one binding for each named parameter, in order, and skips `(void)` |
| `Bindings.CollectBindings` | src/extract/c.rs:491-495 | the collector binds exactly the parameters of reached function definitions and the locals of reached declarations not at file scope, each by the identifier declared, its start and its innermost scope |
| `Bindings.BindingsAreExact` | src/extract/c.rs:497-561 | a binding is there exactly when a reached declaration or parameter list has a declarator that starts there and declares that name |
| `Bindings.LocalsAscend` | src/extract/c.rs:515-532 | named locals come in strict source order, so each once |
| `Bindings.ParamsAscend` | src/extract/c.rs:545-561 | so do the named parameters of one list |
| `Declarators.DeclaratorNameDeclares` | src/extract/c.rs:146-170 | the name found is the identifier declared: through the first declarator child at each step, or the first child that declares anything |
| `Declarators.FoundIsHeld` | src/extract/c.rs:180-190 | likewise for the function declarator found |
| `Bindings.BindingsWellBound` | src/extract/c.rs:491-540 | every binding is bound at the innermost scope of its introduction, and no local at file scope |
| `Bindings.ParametersBindInOwnFunction` | src/extract/c.rs:499-509 | each parameter, named or not, that starts before its function's declarator ends is bound in that function's own scope, for each function definition the scope walk reaches; every parameter with a name starts there |
| `Bindings.ParameterBoundExactly` | src/extract/c.rs:545-561 | any parameter's binding, whatever its name, is in its function's scope exactly when its declarator starts within the function and within no scope-opening node below it |
| `Bindings.EveryParameterIsInAFunction` | src/extract/c.rs:497-561 | in a whole file whose function bodies are blocks, every parameter binding with a name is in the scope of a function, those of functions that the scope walk does not reach included |
| `Validate.ValidateStructure` | src/graph/validate.rs:202-256 | accepts exactly distinct symbols, existing and acyclic parents, and references and bindings that name a scope; a rejection names the first offender of the first check that fails |
| `Validate.RootWithinLength` | src/graph/validate.rs:225-236 | a root reached at all is reached within as many steps as there are scopes, so the bounded climb decides acyclicity |
| `Validate.FindCycle` | src/graph/validate.rs:225-236 | the bounded climb finds the first scope from which no root is reached, and nothing exactly when there is none |
| `Validate.ScopesAcyclic` | src/graph/validate.rs:144-158 | the scope vectors of all three languages pass the parent, cycle and containment checks |
| `Validate.ExtractedFactsAreValid` | src/graph/validate.rs:131-167 | scopes, Reads and Writes with their scopes, and the parameter and local bindings extracted from C pass the structural checks; they pass the range checks exactly when no declarator starts at the end of the source, so always when every name is non-empty |
| `Attach.AttachReferenceScopes` | src/extract/support.rs:607-612 | in place, each reference gets the innermost scope around its byte and keeps everything else |
| `Attach.CollectAttached` | src/extract/c.rs:84-88 | collecting and then attaching gives every Read and Write with the innermost scope around it, in order |
| `Attach.ReferencesAreAttached` | src/extract/support.rs:607-612 | every Read and Write of a well-formed tree gets a scope that contains its byte, and the scopes around the byte are that scope and its ancestors |
| `Bindings.BindingsNamedWithin` | src/extract/c.rs:497-540 | every binding with a name is introduced inside the node traversed, so before the end of the source |
| `References.ReferenceVector.CollectReads` | src/extract/c.rs:723-735 | the recursive collector appends exactly `Reads` of the subtree |
| `References.ReferenceVector.CollectWrites` | src/extract/cpp.rs:962-975 | the recursive collector appends exactly `Writes` of the subtree |
| `References.ReadsAreExact` | src/extract/cpp.rs:884-954 | there is a Read exactly for each identifier of at least three bytes that is not called, declared by a listed declarator or assigned, with its text and first byte, each once, in strictly increasing byte order, in C and C++ |
| `References.WritesAreExact` | src/extract/c.rs:747-760 | there is a Write exactly for each identifier of at least three bytes on the left of an assignment, with its text and first byte, each once |
| `References.PositionsApart` | src/extract/c.rs:674-707 | no read position is a write position, and no callee is either |
| `References.RolesAreDisjoint` | src/extract/c.rs:674-760 | no byte is emitted both as Read and Write, and no callee as either, in C and C++ |
| `References.BareDeclaratorIsRead` | src/extract/c.rs:695-700 | a declared name is a Read exactly when an earlier declarator stands in the same C declaration; in C++ always |
| `References.SecondDeclaratorIsRead` | src/extract/c.rs:695-700 | `int aaa,bbb;` reports `bbb` as a Read |
| `References.DeclaratorNamesAreNoReads` | src/extract/c.rs:680-702 | the name of a parameter, or of a declarator in a pointer, function, array, initializer or attribute declarator, is never a Read |
| `Lines.LineStartByte` | eval/src/diagnose.rs:371-388 | the loop finds the start of exactly the lines 1 to newlines + 1 and nothing for any other |
| `Lines.LineMapsAdjoint` | eval/src/diagnose.rs:371-388 | a line starts at or before a byte exactly when it is not later than the byte's line, and its start lies on it |
| `Lines.LineOfByteStarts` | eval/src/score.rs:208-211 | the line of a byte starts at or before it with no newline between |
| `Lines.LineCountsNewlines` | eval/src/score.rs:208-211 | a line number is one more than the number of line feeds before the byte |
| `Lines.LocalDefLocRoundTrip` | eval/src/score.rs:193-213 | for a known file and a byte within it, the display of a synthesized local leads back to its file and line if and only if the file name holds no `@`, whatever its scope and name |
| `Lines.LocalDefLocExactly` | eval/src/score.rs:195-213 | for every file name, the file looked up is the part before the first `@`; the result is the line of the byte in that file when the file is known and the byte is within it, and nothing otherwise |
| `Lines.LocalDefLocMeans` | eval/src/score.rs:195-213 | a string locates a local exactly when it has the documented form, with digits that spell a byte of a known file |
| `Lines.ParsedNumbers` | eval/src/score.rs:203 | a number is at most a plus sign and then decimal digits that fit into 64 bits |
| `Lines.DigitsArePositional` | eval/src/score.rs:203 | one more digit multiplies the value by ten and adds the digit |
| `Score.ScoreExpected` | eval/src/score.rs:134-182 | the tallies are the sizes of the intersection and differences of emitted and expected sets, with unlocatable edges as false positives and foreign roles invisible |
| `Score.ScoreOracle` | eval/src/score.rs:231-273 | the same by location, synthesized locals located through their display |
| `Score.Tally` | eval/src/score.rs:176-181 | the subtractions never underflow and give the set differences |
| `Score.OracleLocsMean` | eval/src/score.rs:243-269 | the oracle scorer sees each edge at its reference line and at the last definition with its target's display, or else at the synthesized local |
| `Score.RoleEdgesMean` | eval/src/score.rs:134-174 | the role scorer sees exactly the edges of asserted roles to a definition, at the last one with the target's display |
| `Score.UnlocatableMeans` | eval/src/score.rs:154-163 | an edge is unlocatable exactly when it is found nowhere and is not external |
| `Score.UnlocatableCounts` | eval/src/score.rs:147-163 | unlocatable edges are counted one by one |
| `Score.RatesMean` | eval/src/score.rs:53-74 | recall and precision are the matched shares of what was expected and claimed, and one where there is nothing |
| `Score.MergeCounts` | eval/src/score.rs:86-90 | merging the cards of two disjoint problems gives the card of both |
| `Score.KeepAtLeastCounts` | src/graph/types.rs:594-605 | a threshold keeps each edge at or above it as often as it occurs, and no other |
| `Score.EmittedShrinks` | src/graph/types.rs:594-605 | a higher threshold emits a subset of the located edges, for either scorer |
| `Score.UnlocatableShrinks` | src/graph/types.rs:594-605 | a higher threshold has no more unlocatable edges |
| `Score.CountsTighten` | eval/src/score.rs:92-112 | with fewer emitted edges true and false positives do not rise, false negatives do not fall, and their sum with the true positives stays |
| `Precision.PrecisionCanFall` | eval/src/score.rs:94-96 | a two-edge graph on which precision falls with the tier |
| `Precision.OraclePrecisionExactly` | eval/src/score.rs:94-96 | no oracle sees precision fall between two tiers of a graph if and only if the graph locates the same edges at both, or claims nothing at the higher one |
| `Precision.ExpectedPrecisionExactly` | eval/src/score.rs:94-96 | no role-typed expectations see it fall if and only if, for every set of roles, the graph locates the same edges of those roles at both tiers, or claims none of them at the higher one |
| `Diagnose.DiagnoseRecall` | eval/src/diagnose.rs:117-261 | each counter is the number of oracle edges its question singles out, stated with files, lines at most two apart and bytes within function spans, for any iteration order |
| `Diagnose.DiagnosisCountsMisses` | eval/src/diagnose.rs:183-259 | the counters of the cascade are the sizes of the sets those questions define |
| `Diagnose.CauseMeans` | eval/src/diagnose.rs:185-258 | the cause of an edge, question by question, in terms of lines and bytes |
| `Diagnose.BuildLookup` | eval/src/diagnose.rs:123-179 | the maps and sets describe exactly the graph's symbols, bodies and edges and the captured references |
| `Diagnose.FindCause` | eval/src/diagnose.rs:185-258 | the cascade over the lookup structures finds the first cause stated on the graph |
| `Diagnose.DiagnosisIsBalanced` | eval/src/diagnose.rs:38-79 | the five buckets partition the misses and two of them are partitioned by their sub-buckets |
| `Diagnose.DiagnosisStep` | eval/src/diagnose.rs:183-259 | one more edge moves exactly the counters of its cause |
| `Diagnose.DiagnosisMerges` | eval/src/diagnose.rs:82-99 | diagnosing an oracle in two disjoint parts and merging the results is diagnosing it at once |
| `Diagnose.MissedIsFalseNegatives` | eval/src/diagnose.rs:104-107 | the diagnosis misses exactly as many edges as the oracle scorer has false negatives |
| `Causes.DiagnoseCase` | eval/src/runner.rs:92-113 | the diagnosis of a case, and none without an oracle |
| `Causes.DiagnosedMeans` | eval/src/main.rs:107-111 | the diagnosed cases are those with an oracle whose language names a real repository |
| `Causes.DiagnosePerLanguage` | eval/src/main.rs:106-115 | the entries are exactly the languages of real repositories with an oracle, each with the merge of its cases' diagnoses |
| `Causes.LanguagesAreDiagnosed` | eval/src/main.rs:106-115 | every language's merged diagnosis is balanced, and misses exactly what the scorecards of its diagnosed cases count as false negatives |
| `Samples.StructuralMissSamples` | eval/src/diagnose.rs:280-358 | returns the first `limit` oracle edges, in order, that are missed with no emission or definition within two lines and no function body around, each with the text of its two lines |
| `Texts.SourceLineShows` | eval/src/diagnose.rs:360-368 | the text shown for a line is exactly its bytes between line start and line end, trimmed, and nothing for a line without bytes |
| `Texts.StripEndMeans` | eval/src/diagnose.rs:360-368 | a line loses one line feed, and one carriage return only before a line feed |
| `Samples.SamplesAgreeWithDiagnosis` | eval/src/diagnose.rs:274-279 | there are exactly min(limit, `def_structural`) samples, with the counter of the diagnosis on any references; they are sorted, and all of them when the limit allows |
| `Samples.SmallerLimitIsPrefix` | eval/src/diagnose.rs:320-324 | a smaller limit gives a prefix (corollary of `Samples.StructuralMissSamples`) |
| `Samples.RefsDoNotMatter` | eval/src/diagnose.rs:274-279 | the captured references play no part in a structural miss |
| `Samples.LocsTotallyOrdered` | eval/src/diagnose.rs:316-318 | the order used for sampling is a strict total order |
| `Samples.LocsOrderedByCoordinates` | eval/src/diagnose.rs:316-318 | samples are ordered by reference file and line, then definition file and line |
| `Runner.ScoreGraphForCase` | eval/src/runner.rs:56-64 | the oracle decides the card when there is one, the expectations otherwise |
| `Runner.LastSourceWins` | eval/src/runner.rs:58-59 | a path has the source of the last file with it |
| `Runner.PerLanguage` | eval/src/runner.rs:33-42 | the entries are exactly the languages present, each with the total of its cases |
| `Runner.PerLanguageTiered` | eval/src/runner.rs:138-147 | the same for tiered cards |
| `Runner.CorpusTotal` | eval/src/runner.rs:45-51 | the total of all cases |
| `Runner.CorpusTotalTiered` | eval/src/runner.rs:150-156 | the same for tiered cards |
| `Runner.TierTightens` | eval/src/runner.rs:72-88 | for any two thresholds of one graph the higher claims no more and misses no less, whichever scorer the case uses |
| `Runner.CaseIsGraded` | eval/src/runner.rs:82-87 | the four tiers of a case tighten one after the other |
| `Runner.AggregatesAreGraded` | eval/src/runner.rs:150-156 | so do the tiers of every total |
| `Runner.MergeGraded` | eval/src/score.rs:114-121 | merging two graded cards gives a graded card |
| `Runner.LanguagesAreGraded` | eval/src/runner.rs:138-147 | and of every language |
| `Runner.GradedRecall` | eval/src/score.rs:92-97 | recall falls from tier to tier in every graded card (corollary of `Runner.CaseIsGraded` and `Runner.AggregatesAreGraded`) |
| `Runner.LowestTierIsPlain` | eval/src/score.rs:99-101 | the heuristic tier of a total is the plain total of the same graphs |
| `Runner.TiersArePlain` | eval/src/runner.rs:82-87 | each tier of a total is the plain total of the graphs cut at that tier |
| `Runner.CorpusIsMergeOfLanguages` | eval/src/runner.rs:33-51 | the corpus total is the merge of the language entries in any order, for any order of the cases |
| `Runner.TieredCorpusIsMergeOfLanguages` | eval/src/runner.rs:138-156 | the same for tiered cards |
| `Fold.GroupsPermute` | eval/src/runner.rs:33-42 | the entries per group do not depend on the order of the items |

## Left out

- Parsing and query execution: syntax trees are given, and `Syntax.WellFormed` states the shape tree-sitter promises (children inside their parent, one after the other). `References.Grammatical` adds that identifiers are leaves, a call has one function and a qualified name one last part.
- References.RolesAreDisjoint: the call query is stated as a predicate on positions that covers every callee the query can capture and possibly more; call references themselves are not collected.
- Bindings.ParametersBindInOwnFunction: a parameter that starts where its function's declarator ends has an empty name; `Bindings.ParameterBoundExactly` states where it is bound.
- Bindings.EveryParameterIsInAFunction: takes from the grammar that function bodies are blocks and that a file is not itself a function definition.
- Attach.CollectAttached: call and type references, collected before the Reads and Writes, are attached by the same loop but are not collected here.
- Bindings and references of Go, and bindings of C++: further instances of the same kind.
- `src/graph/validate.rs` context checks of files, languages, identities, reference roles and occurrence offsets: finite checks apart from the structure.
- Symbol lookups of the index by name, display or position: reads of the buckets whose contents are proved.
- SCIP rendering is a function parameter that may send different identities to one display string, except that `Lines` reads the display of synthesized locals.
- Index.GraphIndex.UpsertEdge: endpoint counts are unbounded, so the overflow error of `checked_add` on a machine word is not modelled.
- Lines.LineStartByte: line numbers are unbounded; sources are assumed shorter than 2^32 lines.
- Binary search, stable sorting and ordered containers of the standard library are modelled by their results: the position in a sorted list, the sorted list, iteration in order.
- Impact.Impact: the reader is a function of the call's ordinal and the request; other reader operations are not part of its interface here, and the page size is a positive constant.
- `Score.Scorecard` and `Diagnose.RecallDiagnosis` merge as values rather than in place; rates are exact reals instead of floating point; the harmonic mean of precision and recall is left out.
- Samples.StructuralMissSamples: trimming is a function parameter, because it depends on Unicode white space; the lookup structures of the diagnosis are shared instead of built again.
- Corpus files, extraction and resolution in the runner: a case comes with the graph that a function parameter resolves for it.
- Resolvers, incremental graphs, caches, command line, reports and bindings to other languages: outside the four parts modelled here.
