/**
 Lexical scope trees. One walk serves C, C++ and Go: a rule says for each node kind whether it
 opens a scope and whether the body block is peeled. The result is a laminar family with
 preorder identifiers, which is what makes "innermost scope" meaningful.
 */
module Scopes {
  import opened Graph
  import opened Syntax

  datatype ScopeKind = ModuleScope | FunctionScope | BlockScope | TypeScope

  datatype Scope = Scope(parent: Option<nat>, span: ByteSpan, kind: ScopeKind)

  // ----- Per-language rules

  datatype Language = C | Cpp | Go

  datatype Rule =
    | Peel(kind: ScopeKind, orChildren: bool)  // open a scope and visit the body's children instead of the body
    | Open(kind: ScopeKind)                    // open a scope and visit all children
    | Descend                                  // open nothing

  function RuleFor(lang: Language, kind: Kind): Rule {
    match lang
    case C =>
      (match kind
       case FunctionDefinition => Peel(FunctionScope, false)
       case CompoundStatement => Open(BlockScope)
       case _ => Descend)
    case Cpp =>
      (match kind
       case NamespaceDefinition => Peel(TypeScope, true)
       case ClassSpecifier => Peel(TypeScope, true)
       case StructSpecifier => Peel(TypeScope, true)
       case UnionSpecifier => Peel(TypeScope, true)
       case FunctionDefinition => Peel(FunctionScope, false)
       case LambdaExpression => Peel(FunctionScope, false)
       case CompoundStatement => Open(BlockScope)
       case _ => Descend)
    case Go =>
      (match kind
       case FunctionDeclaration => Peel(FunctionScope, false)
       case MethodDeclaration => Peel(FunctionScope, false)
       case FuncLiteral => Peel(FunctionScope, false)
       case GoBlock => Open(BlockScope)
       case _ => Descend)
  }

  /** The nodes visited under a node. */
  function Visited(lang: Language, n: Node): (nodes: seq<Node>)
    ensures SizeAll(nodes) < Size(n)
  {
    match RuleFor(lang, n.kind)
    case Peel(_, orChildren) =>
      var body := ChildByField(n, BodyField);
      if body.Some? then
        SizeOfMember(n.children, body.value);
        body.value.children
      else if orChildren then n.children else []
    case Open(_) => n.children
    case Descend => n.children
  }

  // ----- The walk as a function

  /** The scopes one node appends to a vector that already holds `base` scopes. */
  function Walk(lang: Language, n: Node, parent: nat, base: nat): seq<Scope>
    decreases Size(n), 1
  {
    var rule := RuleFor(lang, n.kind);
    if rule.Descend? then WalkAll(lang, Visited(lang, n), parent, base)
    else [Scope(Some(parent), n.span, rule.kind)] + WalkAll(lang, Visited(lang, n), base, base + 1)
  }

  function WalkAll(lang: Language, nodes: seq<Node>, parent: nat, base: nat): seq<Scope>
    decreases SizeAll(nodes), 2
  {
    if nodes == [] then [] else
      var first := Walk(lang, nodes[0], parent, base);
      first + WalkAll(lang, nodes[1..], parent, base + |first|)
  }

  /** The scope vector of a file. */
  function ScopesOf(lang: Language, root: Node, sourceLen: nat): seq<Scope> {
    [Scope(None, ByteSpan(0, sourceLen), ModuleScope)] + WalkAll(lang, root.children, 0, 1)
  }

  /** The walk of one node, rule by rule. */
  lemma WalkByRule(lang: Language, n: Node, parent: nat, base: nat)
    ensures Walk(lang, n, parent, base) ==
            match RuleFor(lang, n.kind)
            case Descend => WalkAll(lang, n.children, parent, base)
            case Open(kind) => [Scope(Some(parent), n.span, kind)] + WalkAll(lang, n.children, base, base + 1)
            case Peel(kind, orChildren) =>
              [Scope(Some(parent), n.span, kind)] +
              match ChildByField(n, BodyField)
              case Some(body) => WalkAll(lang, body.children, base, base + 1)
              case None => if orChildren then WalkAll(lang, n.children, base, base + 1) else []
  {
    hide RuleFor;
  }

  lemma WalkAllFrom(lang: Language, nodes: seq<Node>, i: nat, parent: nat, base: nat)
    requires i <= |nodes|
    ensures WalkAll(lang, nodes[i..], parent, base) ==
            if i == |nodes| then [] else
              var first := Walk(lang, nodes[i], parent, base);
              first + WalkAll(lang, nodes[i + 1..], parent, base + |first|)
  {
    hide Walk;
    if i < |nodes| {
      assert nodes[i..][0] == nodes[i] && nodes[i..][1..] == nodes[i + 1..];
    }
  }

  // ----- Which nodes open scopes, by kind

  /** A node that opens a scope, and the kind of the scope. */
  datatype Opening = Opening(node: Node, kind: ScopeKind)

  /**
   Functions and types are visited through the children of their body instead of the body; without a body,
   types through their own children and functions not at all. Every other node is visited through its children.
   */
  ghost function Under(functions: set<Kind>, types: set<Kind>, n: Node): (nodes: seq<Node>)
    ensures SizeAll(nodes) < Size(n)
  {
    if n.kind !in functions + types then n.children
    else if i: nat :| FirstFills(n.children, BodyField, i) then
      SizeOfMember(n.children, n.children[i]);
      n.children[i].children
    else if n.kind in functions then [] else n.children
  }

  /** The scope-opening nodes among a node and what is visited under it, in preorder. */
  ghost function Openings(functions: set<Kind>, types: set<Kind>, blocks: set<Kind>, n: Node): seq<Opening>
    decreases Size(n), 1
  {
    (if n.kind in functions then [Opening(n, FunctionScope)]
     else if n.kind in types then [Opening(n, TypeScope)]
     else if n.kind in blocks then [Opening(n, BlockScope)] else [])
    + OpeningsAll(functions, types, blocks, Under(functions, types, n))
  }

  ghost function OpeningsAll(functions: set<Kind>, types: set<Kind>, blocks: set<Kind>, nodes: seq<Node>): seq<Opening>
    decreases SizeAll(nodes), 2
  {
    if nodes == [] then [] else
      Openings(functions, types, blocks, nodes[0]) + OpeningsAll(functions, types, blocks, nodes[1..])
  }

  /** `m` is `n` or visited somewhere under it; what is under a node is always smaller. */
  ghost predicate Reached(functions: set<Kind>, types: set<Kind>, n: Node, m: Node)
    decreases Size(n)
  {
    || m == n
    || exists c :: c in Under(functions, types, n) && Size(c) < Size(n) && Reached(functions, types, c, m)
  }

  /** The openings are exactly the reached nodes of the listed kinds. */
  lemma {:induction false} OpeningsAreReached(functions: set<Kind>, types: set<Kind>, blocks: set<Kind>, n: Node,
                                              m: Node)
    ensures (exists o :: o in Openings(functions, types, blocks, n) && o.node == m) <==>
            Reached(functions, types, n, m) && m.kind in functions + types + blocks
    decreases Size(n), 1
  {
    hide Under;
    var under := Under(functions, types, n);
    OpeningsAllAreReached(functions, types, blocks, under, m);
    forall c | c in under ensures Size(c) < Size(n) {
      SizeOfMember(under, c);
    }
    if n.kind in functions + types + blocks {
      assert Openings(functions, types, blocks, n)[0].node == n;
    }
    forall o | o in OpeningsAll(functions, types, blocks, under) ensures o in Openings(functions, types, blocks, n) {
    }
  }

  lemma {:induction false} OpeningsAllAreReached(functions: set<Kind>, types: set<Kind>, blocks: set<Kind>,
                                                 nodes: seq<Node>, m: Node)
    ensures (exists o :: o in OpeningsAll(functions, types, blocks, nodes) && o.node == m) <==>
            (exists c :: c in nodes && Reached(functions, types, c, m)) && m.kind in functions + types + blocks
    decreases SizeAll(nodes), 2
  {
    hide Openings, Reached;
    if nodes == [] {
    } else {
      OpeningsAreReached(functions, types, blocks, nodes[0], m);
      OpeningsAllAreReached(functions, types, blocks, nodes[1..], m);
      var first := Openings(functions, types, blocks, nodes[0]);
      var rest := OpeningsAll(functions, types, blocks, nodes[1..]);
      assert OpeningsAll(functions, types, blocks, nodes) == first + rest;
      assert nodes == [nodes[0]] + nodes[1..];
    }
  }

  /** Behind the file scope there is one scope for each opening, in the same order, with its span and kind. */
  ghost predicate OpensExactly(scopes: seq<Scope>, root: Node, sourceLen: nat, functions: set<Kind>, types: set<Kind>,
                               blocks: set<Kind>)
  {
    var openings := OpeningsAll(functions, types, blocks, root.children);
    && |scopes| == |openings| + 1 && scopes[0] == Scope(None, ByteSpan(0, sourceLen), ModuleScope)
    && forall i :: 0 <= i < |openings| ==>
         scopes[i + 1].span == openings[i].node.span && scopes[i + 1].kind == openings[i].kind
  }

  /** The scopes of each language, by the node kinds that open them. */
  ghost predicate OpensByKind(lang: Language, scopes: seq<Scope>, root: Node, sourceLen: nat) {
    && (lang == C ==>
          OpensExactly(scopes, root, sourceLen, {FunctionDefinition}, {}, {CompoundStatement}))
    && (lang == Cpp ==>
          OpensExactly(scopes, root, sourceLen, {FunctionDefinition, LambdaExpression},
                       {NamespaceDefinition, ClassSpecifier, StructSpecifier, UnionSpecifier}, {CompoundStatement}))
    && (lang == Go ==>
          OpensExactly(scopes, root, sourceLen, {FunctionDeclaration, MethodDeclaration, FuncLiteral}, {}, {GoBlock}))
  }

  /** The rules of a language say what the three sets of kinds say. */
  ghost predicate Tabulates(lang: Language, functions: set<Kind>, types: set<Kind>, blocks: set<Kind>) {
    forall kind :: RuleFor(lang, kind) ==
      if kind in functions then Peel(FunctionScope, false)
      else if kind in types then Peel(TypeScope, true)
      else if kind in blocks then Open(BlockScope) else Descend
  }

  lemma VisitedIsUnder(lang: Language, functions: set<Kind>, types: set<Kind>, blocks: set<Kind>, n: Node)
    requires Tabulates(lang, functions, types, blocks)
    ensures Visited(lang, n) == Under(functions, types, n)
  {
    hide RuleFor, FirstFills, FieldIndex;
    FirstIsFieldIndex(n.children, BodyField);
    var found, rule := FieldIndex(n.children, BodyField), RuleFor(lang, n.kind);
    if n.kind !in functions + types {
      assert !rule.Peel?;
      assert Visited(lang, n) == n.children;
    } else if found.Some? {
      assert rule.Peel?;
      assert FirstFills(n.children, BodyField, found.value);
      assert Visited(lang, n) == n.children[found.value].children;
      assert Under(functions, types, n) == n.children[found.value].children;
    } else {
      assert rule.Peel?;
      assert Visited(lang, n) == if n.kind in functions then [] else n.children;
    }
  }

  /** The scopes match the openings one by one. */
  ghost predicate Matching(scopes: seq<Scope>, openings: seq<Opening>) {
    && |scopes| == |openings|
    && forall i :: 0 <= i < |openings| ==>
         scopes[i].span == openings[i].node.span && scopes[i].kind == openings[i].kind
  }

  lemma RuleTabulated(lang: Language, functions: set<Kind>, types: set<Kind>, blocks: set<Kind>, kind: Kind)
    requires Tabulates(lang, functions, types, blocks)
    ensures RuleFor(lang, kind).Descend? <==> kind !in functions + types + blocks
    ensures !RuleFor(lang, kind).Descend? ==>
              RuleFor(lang, kind).kind == if kind in functions then FunctionScope
                                          else if kind in types then TypeScope else BlockScope
  {
    hide RuleFor;
  }

  lemma WalkUnfold(lang: Language, n: Node, parent: nat, base: nat)
    ensures Walk(lang, n, parent, base) ==
            if RuleFor(lang, n.kind).Descend? then WalkAll(lang, Visited(lang, n), parent, base)
            else [Scope(Some(parent), n.span, RuleFor(lang, n.kind).kind)]
                 + WalkAll(lang, Visited(lang, n), base, base + 1)
  {
  }

  lemma OpeningsUnfold(functions: set<Kind>, types: set<Kind>, blocks: set<Kind>, n: Node)
    ensures var rest := OpeningsAll(functions, types, blocks, Under(functions, types, n));
            Openings(functions, types, blocks, n) ==
            if n.kind !in functions + types + blocks then rest
            else [Opening(n, if n.kind in functions then FunctionScope
                             else if n.kind in types then TypeScope else BlockScope)] + rest
  {
  }

  lemma MatchingBehind(s: Scope, o: Opening, scopes: seq<Scope>, openings: seq<Opening>)
    requires s.span == o.node.span && s.kind == o.kind && Matching(scopes, openings)
    ensures Matching([s] + scopes, [o] + openings)
  {
  }

  lemma {:induction false} WalkOpens(lang: Language, functions: set<Kind>, types: set<Kind>, blocks: set<Kind>, n: Node,
                                     parent: nat, base: nat)
    requires Tabulates(lang, functions, types, blocks)
    ensures Matching(Walk(lang, n, parent, base), Openings(functions, types, blocks, n))
    decreases Size(n), 1
  {
    hide *;
    VisitedIsUnder(lang, functions, types, blocks, n);
    var nodes := Visited(lang, n);
    RuleTabulated(lang, functions, types, blocks, n.kind);
    WalkUnfold(lang, n, parent, base);
    OpeningsUnfold(functions, types, blocks, n);
    if RuleFor(lang, n.kind).Descend? {
      WalkAllOpens(lang, functions, types, blocks, nodes, parent, base);
    } else {
      WalkAllOpens(lang, functions, types, blocks, nodes, base, base + 1);
      MatchingBehind(Scope(Some(parent), n.span, RuleFor(lang, n.kind).kind), Opening(n, RuleFor(lang, n.kind).kind),
                     WalkAll(lang, nodes, base, base + 1), OpeningsAll(functions, types, blocks, nodes));
    }
  }

  lemma {:induction false} WalkAllOpens(lang: Language, functions: set<Kind>, types: set<Kind>, blocks: set<Kind>,
                                        nodes: seq<Node>, parent: nat, base: nat)
    requires Tabulates(lang, functions, types, blocks)
    ensures Matching(WalkAll(lang, nodes, parent, base), OpeningsAll(functions, types, blocks, nodes))
    decreases SizeAll(nodes), 2
  {
    hide Walk, Openings, Tabulates;
    if nodes == [] {
    } else {
      WalkOpens(lang, functions, types, blocks, nodes[0], parent, base);
      WalkAllOpens(lang, functions, types, blocks, nodes[1..], parent, base + |Walk(lang, nodes[0], parent, base)|);
    }
  }

  lemma CTabulated()
    ensures Tabulates(C, {FunctionDefinition}, {}, {CompoundStatement})
  {
  }

  lemma CppTabulated()
    ensures Tabulates(Cpp, {FunctionDefinition, LambdaExpression},
                      {NamespaceDefinition, ClassSpecifier, StructSpecifier, UnionSpecifier}, {CompoundStatement})
  {
  }

  lemma GoTabulated()
    ensures Tabulates(Go, {FunctionDeclaration, MethodDeclaration, FuncLiteral}, {}, {GoBlock})
  {
  }

  lemma FileOpens(lang: Language, root: Node, sourceLen: nat, functions: set<Kind>, types: set<Kind>, blocks: set<Kind>)
    requires Tabulates(lang, functions, types, blocks)
    ensures OpensExactly(ScopesOf(lang, root, sourceLen), root, sourceLen, functions, types, blocks)
  {
    hide WalkAll, OpeningsAll, Tabulates;
    WalkAllOpens(lang, functions, types, blocks, root.children, 0, 1);
  }

  /** The scope vector of each language opens scopes exactly at the listed kinds of nodes, in preorder. */
  lemma ScopesOpenByKind(lang: Language, root: Node, sourceLen: nat)
    ensures OpensByKind(lang, ScopesOf(lang, root, sourceLen), root, sourceLen)
  {
    hide OpensExactly, ScopesOf, RuleFor, Tabulates;
    match lang {
      case C =>
        CTabulated();
        FileOpens(C, root, sourceLen, {FunctionDefinition}, {}, {CompoundStatement});
      case Cpp =>
        CppTabulated();
        FileOpens(Cpp, root, sourceLen, {FunctionDefinition, LambdaExpression},
                  {NamespaceDefinition, ClassSpecifier, StructSpecifier, UnionSpecifier}, {CompoundStatement});
      case Go =>
        GoTabulated();
        FileOpens(Go, root, sourceLen, {FunctionDeclaration, MethodDeclaration, FuncLiteral}, {}, {GoBlock});
    }
  }

  // ----- The walk as the extractors run it

  class ScopeVector {
    var scopes: seq<Scope>

    constructor ()
      ensures scopes == []
    {
      scopes := [];
    }

    /** Append a scope and return its index. */
    method Push(parent: Option<nat>, span: ByteSpan, kind: ScopeKind) returns (id: nat)
      modifies this
      ensures id == |old(scopes)| && scopes == old(scopes) + [Scope(parent, span, kind)]
    {
      id := |scopes|;
      scopes := scopes + [Scope(parent, span, kind)];
    }

    method Dfs(lang: Language, n: Node, parent: nat)
      modifies this
      ensures scopes == old(scopes) + Walk(lang, n, parent, |old(scopes)|)
      decreases Size(n), 1
    {
      hide RuleFor, Walk, WalkAll;
      WalkByRule(lang, n, parent, |scopes|);
      match RuleFor(lang, n.kind) {
        case Peel(kind, orChildren) =>
          var id := Push(Some(parent), n.span, kind);
          match ChildByField(n, BodyField) {
            case Some(body) =>
              SizeOfMember(n.children, body);
              DfsAll(lang, body.children, id);
            case None =>
              if orChildren {
                DfsAll(lang, n.children, id);
              }
          }
        case Open(kind) =>
          var id := Push(Some(parent), n.span, kind);
          DfsAll(lang, n.children, id);
        case Descend =>
          DfsAll(lang, n.children, parent);
      }
    }

    method DfsAll(lang: Language, nodes: seq<Node>, parent: nat)
      modifies this
      ensures scopes == old(scopes) + WalkAll(lang, nodes, parent, |old(scopes)|)
      decreases SizeAll(nodes), 2
    {
      hide Walk, WalkAll;
      ghost var base := |scopes|;
      assert nodes[0..] == nodes;
      for i := 0 to |nodes|
        invariant |scopes| >= base
        invariant old(scopes) + WalkAll(lang, nodes, parent, base) ==
                  scopes + WalkAll(lang, nodes[i..], parent, |scopes|)
      {
        SizeOfMember(nodes, nodes[i]);
        WalkAllFrom(lang, nodes, i, parent, |scopes|);
        Dfs(lang, nodes[i], parent);
      }
      WalkAllFrom(lang, nodes, |nodes|, parent, |scopes|);
    }
  }

  method CollectScopes(lang: Language, root: Node, sourceLen: nat) returns (scopes: seq<Scope>)
    ensures scopes == ScopesOf(lang, root, sourceLen) && OpensByKind(lang, scopes, root, sourceLen)
  {
    hide OpensByKind, WalkAll;
    ScopesOpenByKind(lang, root, sourceLen);
    var out := new ScopeVector();
    var file := out.Push(None, ByteSpan(0, sourceLen), ModuleScope);
    out.DfsAll(lang, root.children, file);
    scopes := out.scopes;
  }
}
