/**
 The scope vectors of the walks are laminar with preorder identifiers, so the scopes around a
 byte form one chain and the innermost one is the last of them.
 */
module Laminar {
  import opened Graph
  import opened Syntax
  import opened Scopes

  /** `i` is `j` or one of its ancestors. */
  ghost predicate Encloses(scopes: seq<Scope>, i: nat, j: nat)
    requires j < |scopes|
    decreases j
  {
    i == j || (scopes[j].parent.Some? && scopes[j].parent.value < j && Encloses(scopes, i, scopes[j].parent.value))
  }

  /** Every scope but the first has an earlier parent whose span covers its own. */
  ghost predicate Rooted(scopes: seq<Scope>, sourceLen: nat) {
    && scopes != []
    && scopes[0] == Scope(None, ByteSpan(0, sourceLen), ModuleScope)
    && forall j :: 0 < j < |scopes| ==>
         && scopes[j].span.start <= scopes[j].span.end
         && scopes[j].parent.Some? && scopes[j].parent.value < j
         && Inside(scopes[j].span, scopes[scopes[j].parent.value].span)
  }

  /** An earlier scope is an ancestor, or ends before the later one starts. */
  ghost predicate Separated(scopes: seq<Scope>) {
    forall i: nat, j: nat :: i < j < |scopes| ==> Encloses(scopes, i, j) || scopes[i].span.end <= scopes[j].span.start
  }

  ghost predicate IsLaminar(scopes: seq<Scope>, sourceLen: nat) {
    Rooted(scopes, sourceLen) && Separated(scopes)
  }

  // ----- The walk keeps the vector laminar

  /** Everything that is not around `parent` lies before `at`. */
  ghost predicate Behind(scopes: seq<Scope>, parent: nat, at: nat)
    requires parent < |scopes|
  {
    forall i: nat :: i < |scopes| ==> Encloses(scopes, i, parent) || scopes[i].span.end <= at
  }

  lemma {:induction false} EnclosesStable(scopes: seq<Scope>, more: seq<Scope>, i: nat, j: nat)
    requires j < |scopes|
    ensures Encloses(scopes + more, i, j) == Encloses(scopes, i, j)
    decreases j
  {
    if i != j && scopes[j].parent.Some? && scopes[j].parent.value < j {
      EnclosesStable(scopes, more, i, scopes[j].parent.value);
    }
  }

  lemma AppendKeepsLaminar(scopes: seq<Scope>, parent: nat, span: ByteSpan, kind: ScopeKind, sourceLen: nat)
    requires IsLaminar(scopes, sourceLen) && parent < |scopes|
    requires Behind(scopes, parent, span.start) && Inside(span, scopes[parent].span) && span.start <= span.end
    ensures var all := scopes + [Scope(Some(parent), span, kind)];
            IsLaminar(all, sourceLen) && Behind(all, |scopes|, span.start)
  {
    var s := Scope(Some(parent), span, kind);
    var all := scopes + [s];
    forall i: nat, j: nat | i < j < |all|
      ensures Encloses(all, i, j) || all[i].span.end <= all[j].span.start
    {
      if j < |scopes| {
        EnclosesStable(scopes, [s], i, j);
      } else {
        EnclosesStable(scopes, [s], i, parent);
      }
    }
    forall i: nat | i < |all| ensures Encloses(all, i, |scopes|) || all[i].span.end <= span.start {
      if i < |scopes| {
        EnclosesStable(scopes, [s], i, parent);
      }
    }
  }

  ghost predicate AllWithin(scopes: seq<Scope>, from: nat, span: ByteSpan) {
    forall k: nat :: from <= k < |scopes| ==> Inside(scopes[k].span, span)
  }

  lemma BehindAfter(scopes: seq<Scope>, more: seq<Scope>, parent: nat, span: ByteSpan)
    requires parent < |scopes| && Behind(scopes, parent, span.start) && span.start <= span.end
    requires AllWithin(scopes + more, |scopes|, span)
    ensures Behind(scopes + more, parent, span.end)
  {
    forall i: nat | i < |scopes| ensures Encloses(scopes + more, i, parent) == Encloses(scopes, i, parent) {
      EnclosesStable(scopes, more, i, parent);
    }
  }

  lemma VisitedOrdered(lang: Language, n: Node)
    requires WellFormed(n)
    ensures AllWellFormed(Visited(lang, n), n.span)
  {
    match RuleFor(lang, n.kind)
    case Peel(_, _) =>
      var body := ChildByField(n, BodyField);
      if body.Some? {
        ChildFacts(n, body.value);
      }
    case _ =>
  }

  lemma OrderedTail(nodes: seq<Node>, span: ByteSpan)
    requires nodes != [] && AllWellFormed(nodes, span)
    ensures WellFormed(nodes[0]) && Inside(nodes[0].span, span) && nodes[0].span.start <= nodes[0].span.end
    ensures AllWellFormed(nodes[1..], ByteSpan(nodes[0].span.end, span.end))
  {
  }

  lemma NothingBeyond(scopes: seq<Scope>, span: ByteSpan)
    ensures AllWithin(scopes, |scopes|, span)
  {
  }

  lemma WithinBoth(all: seq<Scope>, from: nat, mid: nat, first: ByteSpan, rest: ByteSpan, span: ByteSpan)
    requires from <= mid <= |all| && AllWithin(all[..mid], from, first) && AllWithin(all, mid, rest)
    requires Inside(first, span) && Inside(rest, span)
    ensures AllWithin(all, from, span)
  {
    forall k: nat | from <= k < |all| ensures Inside(all[k].span, span) {
      if k < mid {
        assert all[..mid][k] == all[k];
      }
    }
  }

  lemma BehindLater(scopes: seq<Scope>, parent: nat, at: nat, later: nat)
    requires parent < |scopes| && Behind(scopes, parent, at) && at <= later
    ensures Behind(scopes, parent, later)
  {
  }

  lemma {:induction false} WalkKeepsLaminar(lang: Language, n: Node, parent: nat, scopes: seq<Scope>, sourceLen: nat)
    requires WellFormed(n) && IsLaminar(scopes, sourceLen) && parent < |scopes|
    requires Behind(scopes, parent, n.span.start) && Inside(n.span, scopes[parent].span)
    ensures var all := scopes + Walk(lang, n, parent, |scopes|);
            && IsLaminar(all, sourceLen) && Behind(all, parent, n.span.end) && AllWithin(all, |scopes|, n.span)
    decreases Size(n), 1
  {
    hide IsLaminar, Behind;
    var rule := RuleFor(lang, n.kind);
    VisitedOrdered(lang, n);
    if rule.Descend? {
      WalkAllKeepsLaminar(lang, Visited(lang, n), parent, scopes, n.span, sourceLen);
    } else {
      var s := Scope(Some(parent), n.span, rule.kind);
      AppendKeepsLaminar(scopes, parent, n.span, rule.kind, sourceLen);
      var start := scopes + [s];
      WalkAllKeepsLaminar(lang, Visited(lang, n), |scopes|, start, n.span, sourceLen);
      var all := scopes + Walk(lang, n, parent, |scopes|);
      assert all == start + WalkAll(lang, Visited(lang, n), |scopes|, |start|);
      BehindAfter(scopes, Walk(lang, n, parent, |scopes|), parent, n.span);
    }
  }

  lemma {:induction false} WalkAllKeepsLaminar(lang: Language, nodes: seq<Node>, parent: nat, scopes: seq<Scope>,
                                               span: ByteSpan, sourceLen: nat)
    requires AllWellFormed(nodes, span) && span.start <= span.end
    requires IsLaminar(scopes, sourceLen) && parent < |scopes|
    requires Behind(scopes, parent, span.start) && Inside(span, scopes[parent].span)
    ensures var all := scopes + WalkAll(lang, nodes, parent, |scopes|);
            && IsLaminar(all, sourceLen) && Behind(all, parent, span.end) && AllWithin(all, |scopes|, span)
    decreases SizeAll(nodes), 2
  {
    hide IsLaminar, Behind, AllWellFormed, AllWithin, WellFormed;
    if nodes == [] {
      assert scopes + WalkAll(lang, nodes, parent, |scopes|) == scopes;
      BehindLater(scopes, parent, span.start, span.end);
      NothingBeyond(scopes, span);
    } else {
      var first := nodes[0];
      OrderedTail(nodes, span);
      BehindLater(scopes, parent, span.start, first.span.start);
      WalkKeepsLaminar(lang, first, parent, scopes, sourceLen);
      var w := Walk(lang, first, parent, |scopes|);
      var next := scopes + w;
      var rest := ByteSpan(first.span.end, span.end);
      WalkAllKeepsLaminar(lang, nodes[1..], parent, next, rest, sourceLen);
      var all := scopes + WalkAll(lang, nodes, parent, |scopes|);
      assert all == next + WalkAll(lang, nodes[1..], parent, |next|);
      WithinBoth(all, |scopes|, |next|, first.span, rest, span);
    }
  }

  /** Every scope vector of a well-formed tree is laminar with preorder identifiers. */
  lemma ScopesAreLaminar(lang: Language, root: Node, sourceLen: nat)
    requires WellFormed(root) && root.span.end <= sourceLen
    ensures IsLaminar(ScopesOf(lang, root, sourceLen), sourceLen)
  {
    var file := [Scope(None, ByteSpan(0, sourceLen), ModuleScope)];
    WalkAllKeepsLaminar(lang, root.children, 0, file, ByteSpan(0, sourceLen), sourceLen);
  }

  // ----- What laminarity gives

  lemma {:induction false} AncestorsCover(scopes: seq<Scope>, sourceLen: nat, i: nat, j: nat)
    requires Rooted(scopes, sourceLen) && j < |scopes| && Encloses(scopes, i, j)
    ensures i <= j && Inside(scopes[j].span, scopes[i].span)
    decreases j
  {
    if i == j {
    } else {
      AncestorsCover(scopes, sourceLen, i, scopes[j].parent.value);
    }
  }

  /** Scopes with the same parent share no byte, and the one opened first comes first. */
  lemma SiblingsDisjoint(scopes: seq<Scope>, sourceLen: nat, i: nat, j: nat)
    requires IsLaminar(scopes, sourceLen) && 0 < i < j < |scopes| && scopes[i].parent == scopes[j].parent
    ensures scopes[i].span.end <= scopes[j].span.start
  {
    if Encloses(scopes, i, j) {
      AncestorsCover(scopes, sourceLen, i, scopes[j].parent.value);
    }
  }

  /** Any two scopes around a byte are an ancestor and its descendant. */
  lemma ContainersNest(scopes: seq<Scope>, sourceLen: nat, byte: nat, i: nat, j: nat)
    requires IsLaminar(scopes, sourceLen) && i <= j < |scopes|
    requires scopes[i].span.Contains(byte) && scopes[j].span.Contains(byte)
    ensures Encloses(scopes, i, j)
  {
  }

  /** The scope with the smallest span around `byte` among the first `n`, the later one on ties. */
  function InnermostAmong(byte: nat, scopes: seq<Scope>, n: nat): (k: Option<nat>)
    requires n <= |scopes|
    ensures k.Some? ==> k.value < n && scopes[k.value].span.Contains(byte)
  {
    if n == 0 then None else
      var best := InnermostAmong(byte, scopes, n - 1);
      var id := n - 1;
      if !scopes[id].span.Contains(byte) then best
      else if best.None? then Some(id)
      else
        var (len, bestLen) := (scopes[id].span.Len(), scopes[best.value].span.Len());
        if len < bestLen || (len == bestLen && id > best.value) then Some(id) else best
  }

  function InnermostScope(byte: nat, scopes: seq<Scope>): (k: Option<nat>)
    ensures k.Some? ==> k.value < |scopes| && scopes[k.value].span.Contains(byte)
  {
    InnermostAmong(byte, scopes, |scopes|)
  }

  lemma LaterContainerIsSmaller(scopes: seq<Scope>, sourceLen: nat, byte: nat, i: nat, j: nat)
    requires IsLaminar(scopes, sourceLen) && i < j < |scopes|
    requires scopes[i].span.Contains(byte) && scopes[j].span.Contains(byte)
    ensures scopes[j].span.Len() <= scopes[i].span.Len()
  {
    ContainersNest(scopes, sourceLen, byte, i, j);
    AncestorsCover(scopes, sourceLen, i, j);
  }

  /** On a laminar vector the smallest span is the last container. */
  lemma {:induction false} InnermostIsLast(byte: nat, scopes: seq<Scope>, sourceLen: nat, n: nat)
    requires IsLaminar(scopes, sourceLen) && n <= |scopes|
    ensures var k := InnermostAmong(byte, scopes, n);
            forall i :: 0 <= i < n && scopes[i].span.Contains(byte) ==> k.Some? && i <= k.value
    decreases n
  {
    hide IsLaminar;
    if n == 0 {
    } else {
      InnermostIsLast(byte, scopes, sourceLen, n - 1);
      var best := InnermostAmong(byte, scopes, n - 1);
      if scopes[n - 1].span.Contains(byte) && best.Some? {
        LaterContainerIsSmaller(scopes, sourceLen, byte, best.value, n - 1);
      }
    }
  }

  lemma {:induction false} RootEncloses(scopes: seq<Scope>, sourceLen: nat, j: nat)
    requires Rooted(scopes, sourceLen) && j < |scopes|
    ensures Encloses(scopes, 0, j)
    decreases j
  {
    if j == 0 {
    } else {
      RootEncloses(scopes, sourceLen, scopes[j].parent.value);
    }
  }

  /**
   The scopes around a byte are exactly the innermost scope and its ancestors; there is one for
   every byte of the file and none beyond it.
   */
  lemma InnermostChain(byte: nat, scopes: seq<Scope>, sourceLen: nat)
    requires IsLaminar(scopes, sourceLen)
    ensures InnermostScope(byte, scopes).Some? <==> byte < sourceLen
    ensures InnermostScope(byte, scopes).Some? ==>
              forall i: nat :: i < |scopes| ==>
                (scopes[i].span.Contains(byte) <==> Encloses(scopes, i, InnermostScope(byte, scopes).value))
  {
    InnermostIsLast(byte, scopes, sourceLen, |scopes|);
    assert scopes[0].span.Contains(byte) <==> byte < sourceLen;
    var found := InnermostScope(byte, scopes);
    if found.Some? {
      var k := found.value;
      RootEncloses(scopes, sourceLen, k);
      AncestorsCover(scopes, sourceLen, 0, k);
      forall i: nat | i < |scopes| ensures scopes[i].span.Contains(byte) <==> Encloses(scopes, i, k) {
        if scopes[i].span.Contains(byte) {
          ContainersNest(scopes, sourceLen, byte, i, k);
        }
        if Encloses(scopes, i, k) {
          AncestorsCover(scopes, sourceLen, i, k);
        }
      }
    }
  }

  // ----- Which node opened which scope

  /** The nodes that open the scopes of `Walk`, in the same order. */
  function Owners(lang: Language, n: Node): seq<Node>
    decreases Size(n), 1
  {
    var below := OwnersAll(lang, Visited(lang, n));
    if RuleFor(lang, n.kind).Descend? then below else [n] + below
  }

  function OwnersAll(lang: Language, nodes: seq<Node>): seq<Node>
    decreases SizeAll(nodes), 2
  {
    if nodes == [] then [] else Owners(lang, nodes[0]) + OwnersAll(lang, nodes[1..])
  }

  /** Each scope has the span of the node that opened it and the kind its rule says. */
  ghost predicate Opened(lang: Language, scopes: seq<Scope>, owners: seq<Node>) {
    && |scopes| == |owners|
    && forall k :: 0 <= k < |scopes| ==>
         && scopes[k].span == owners[k].span
         && !RuleFor(lang, owners[k].kind).Descend?
         && scopes[k].kind == RuleFor(lang, owners[k].kind).kind
  }

  lemma {:induction false} OwnersOpen(lang: Language, n: Node, parent: nat, base: nat)
    ensures Opened(lang, Walk(lang, n, parent, base), Owners(lang, n))
    decreases Size(n), 1
  {
    OwnersAllOpen(lang, Visited(lang, n), if RuleFor(lang, n.kind).Descend? then parent else base,
                  if RuleFor(lang, n.kind).Descend? then base else base + 1);
  }

  lemma {:induction false} OwnersAllOpen(lang: Language, nodes: seq<Node>, parent: nat, base: nat)
    ensures Opened(lang, WalkAll(lang, nodes, parent, base), OwnersAll(lang, nodes))
    decreases SizeAll(nodes), 2
  {
    hide RuleFor, Owners, Walk;
    if nodes == [] {
    } else {
      OwnersOpen(lang, nodes[0], parent, base);
      OwnersAllOpen(lang, nodes[1..], parent, base + |Walk(lang, nodes[0], parent, base)|);
    }
  }

  /** Every node that opens a scope lies in one of the nodes walked. */
  lemma {:induction false} OwnerInside(lang: Language, n: Node, k: nat)
    requires WellFormed(n) && k < |Owners(lang, n)|
    ensures WellFormed(Owners(lang, n)[k]) && Inside(Owners(lang, n)[k].span, n.span)
    decreases Size(n), 1
  {
    VisitedOrdered(lang, n);
    var opens := !RuleFor(lang, n.kind).Descend?;
    if opens && k == 0 {
    } else {
      var i := OwnerInsideSome(lang, Visited(lang, n), n.span, if opens then k - 1 else k);
    }
  }

  lemma {:induction false} OwnerInsideSome(lang: Language, nodes: seq<Node>, span: ByteSpan, k: nat) returns (i: nat)
    requires AllWellFormed(nodes, span) && k < |OwnersAll(lang, nodes)|
    ensures i < |nodes| && WellFormed(OwnersAll(lang, nodes)[k])
    ensures Inside(OwnersAll(lang, nodes)[k].span, nodes[i].span)
    decreases SizeAll(nodes), 2
  {
    var first := |Owners(lang, nodes[0])|;
    if k < first {
      OwnerInside(lang, nodes[0], k);
      i := 0;
    } else {
      OrderedTail(nodes, span);
      var j := OwnerInsideSome(lang, nodes[1..], ByteSpan(nodes[0].span.end, span.end), k - first);
      i := j + 1;
    }
  }

  /** A byte of an owner that a later owner also contains lies in a node visited under the first. */
  lemma {:induction false} LaterOwnerIsVisited(lang: Language, n: Node, k: nat, j: nat, byte: nat)
    requires WellFormed(n) && k < j < |Owners(lang, n)|
    requires Owners(lang, n)[k].span.Contains(byte) && Owners(lang, n)[j].span.Contains(byte)
    ensures exists v :: v in Visited(lang, Owners(lang, n)[k]) && v.span.Contains(byte)
    decreases Size(n), 1
  {
    VisitedOrdered(lang, n);
    var nodes := Visited(lang, n);
    if RuleFor(lang, n.kind).Descend? {
      LaterOwnerIsVisitedAll(lang, nodes, n.span, k, j, byte);
    } else if k > 0 {
      LaterOwnerIsVisitedAll(lang, nodes, n.span, k - 1, j - 1, byte);
    } else {
      var i := OwnerInsideSome(lang, nodes, n.span, j - 1);
      assert nodes[i] in nodes && nodes[i].span.Contains(byte);
    }
  }

  lemma {:induction false} LaterOwnerIsVisitedAll(lang: Language, nodes: seq<Node>, span: ByteSpan, k: nat, j: nat,
                                                  byte: nat)
    requires AllWellFormed(nodes, span) && k < j < |OwnersAll(lang, nodes)|
    requires OwnersAll(lang, nodes)[k].span.Contains(byte) && OwnersAll(lang, nodes)[j].span.Contains(byte)
    ensures exists v :: v in Visited(lang, OwnersAll(lang, nodes)[k]) && v.span.Contains(byte)
    decreases SizeAll(nodes), 2
  {
    var first := |Owners(lang, nodes[0])|;
    var rest := ByteSpan(nodes[0].span.end, span.end);
    OrderedTail(nodes, span);
    if j < first {
      LaterOwnerIsVisited(lang, nodes[0], k, j, byte);
    } else if first <= k {
      LaterOwnerIsVisitedAll(lang, nodes[1..], rest, k - first, j - first, byte);
    } else {
      OwnerInside(lang, nodes[0], k);
      var i := OwnerInsideSome(lang, nodes[1..], rest, j - first);
      assert false;
    }
  }

  /** Behind the file scope, each scope has the span of its owner. */
  lemma OwnersOfFile(lang: Language, root: Node, sourceLen: nat)
    ensures var scopes, owners := ScopesOf(lang, root, sourceLen), OwnersAll(lang, root.children);
            |scopes| == |owners| + 1 && forall j :: 0 <= j < |owners| ==> scopes[j + 1].span == owners[j].span
  {
    hide WalkAll, OwnersAll, RuleFor;
    OwnersAllOpen(lang, root.children, 0, 1);
  }

  /** A byte has the scope of an owner as its innermost scope exactly when that is the last owner around it. */
  lemma OwnScopeExactly(lang: Language, root: Node, sourceLen: nat, k: nat, byte: nat)
    requires WellFormed(root) && root.span.end <= sourceLen && k < |OwnersAll(lang, root.children)|
    ensures InnermostScope(byte, ScopesOf(lang, root, sourceLen)) == Some(k + 1) <==>
            var owners := OwnersAll(lang, root.children);
            owners[k].span.Contains(byte) && forall j :: k < j < |owners| ==> !owners[j].span.Contains(byte)
  {
    hide IsLaminar, WellFormed, ScopesOf, OwnersAll, InnermostAmong;
    var scopes := ScopesOf(lang, root, sourceLen);
    ScopesAreLaminar(lang, root, sourceLen);
    OwnersOfFile(lang, root, sourceLen);
    InnermostIsLast(byte, scopes, sourceLen, |scopes|);
    assert forall j :: k + 1 <= j < |scopes| ==> scopes[j].span == OwnersAll(lang, root.children)[j - 1].span;
  }

  lemma RootIsOrdered(root: Node)
    requires WellFormed(root)
    ensures AllWellFormed(root.children, root.span)
  {
  }

  /**
   A byte of a scope-opening node outside everything visited under it (a declarator, say) has that
   node's scope as its innermost scope.
   */
  lemma OwnScope(lang: Language, root: Node, sourceLen: nat, k: nat, byte: nat)
    requires WellFormed(root) && root.span.end <= sourceLen && k < |OwnersAll(lang, root.children)|
    requires OwnersAll(lang, root.children)[k].span.Contains(byte)
    requires forall v :: v in Visited(lang, OwnersAll(lang, root.children)[k]) ==> !v.span.Contains(byte)
    ensures InnermostScope(byte, ScopesOf(lang, root, sourceLen)) == Some(k + 1)
  {
    hide Visited, WellFormed, ScopesOf;
    var owners := OwnersAll(lang, root.children);
    RootIsOrdered(root);
    forall j: nat | k < j < |owners| ensures !owners[j].span.Contains(byte) {
      if owners[j].span.Contains(byte) {
        LaterOwnerIsVisitedAll(lang, root.children, root.span, k, j, byte);
      }
    }
    OwnScopeExactly(lang, root, sourceLen, k, byte);
  }
}
