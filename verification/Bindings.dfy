/**
 Parameter and local bindings of a C file, and the proof that a parameter is bound in the scope
 of its own function.
 */
module Bindings {
  import opened Graph
  import opened Syntax
  import opened Scopes
  import opened Laminar
  import opened Declarators

  datatype BindingKind = LocalBinding | ParamBinding

  datatype Binding = Binding(scope: nat, name: string, intro: nat, kind: BindingKind)

  // ----- Bindings as a function of the tree

  /** A local-target binding at the innermost scope of its introduction, the file scope by default. */
  function Bind(name: string, intro: nat, kind: BindingKind, scopes: seq<Scope>): Binding {
    var s := InnermostScope(intro, scopes);
    Binding(if s.Some? then s.value else 0, name, intro, kind)
  }

  /** The declarator and the name node of a named parameter; `(void)` has none. */
  function NamedParameter(child: Node): Option<(Node, Node)> {
    if !child.kind.ParameterDeclaration? then None else
      var decl := ChildByField(child, DeclaratorField);
      if decl.None? then None else
        var name := DeclaratorName(decl.value);
        if name.None? then None else Some((decl.value, name.value))
  }

  /** The parameter list of a function definition, through whatever wraps its declarator. */
  function ParameterList(f: Node): seq<Node> {
    var decl := ChildByField(f, DeclaratorField);
    if decl.None? then [] else
      var fnDecl := FindFunctionDeclarator(decl.value);
      if fnDecl.None? then [] else
        var params := ChildByField(fnDecl.value, ParametersField);
        if params.None? then [] else params.value.children
  }

  function BindingOfParam(child: Node, source: string, scopes: seq<Scope>): seq<Binding> {
    match NamedParameter(child)
    case Some((decl, name)) => [Bind(NodeText(name, source), decl.span.start, ParamBinding, scopes)]
    case None => []
  }

  function ParamBindings(params: seq<Node>, source: string, scopes: seq<Scope>): seq<Binding> {
    if params == [] then [] else
      BindingOfParam(params[0], source, scopes) + ParamBindings(params[1..], source, scopes)
  }

  function LocalOf(decl: Node, source: string, scopes: seq<Scope>): seq<Binding> {
    var name := DeclaratorName(decl);
    if name.Some? && InnermostScope(decl.span.start, scopes) != Some(0)
    then [Bind(NodeText(name.value, source), decl.span.start, LocalBinding, scopes)] else []
  }

  function BindingsOf(n: Node, source: string, scopes: seq<Scope>): seq<Binding>
    decreases n, 0
  {
    if n.kind.FunctionDefinition? then
      ParamBindings(ParameterList(n), source, scopes) + BindingsOfAll(n.children, false, source, scopes)
    else BindingsOfAll(n.children, n.kind.Declaration?, source, scopes)
  }

  /** In a declaration, each declarator binds a local unless it sits at file scope. */
  function BindingsOfAll(nodes: seq<Node>, declaration: bool, source: string, scopes: seq<Scope>): seq<Binding>
    decreases nodes, 1
  {
    if nodes == [] then [] else
      (if declaration && nodes[0].field == DeclaratorField
       then LocalOf(nodes[0], source, scopes)
       else BindingsOf(nodes[0], source, scopes))
      + BindingsOfAll(nodes[1..], declaration, source, scopes)
  }

  // ----- Exactly which bindings there are

  /** The bytes of a node, if the source has them. */
  ghost function TextOf(n: Node, source: string): string {
    if n.span.start <= n.span.end <= |source| then source[n.span.start..n.span.end] else ""
  }

  /** `b` binds the identifier `name` where `decl` starts, in the innermost scope there or else the file scope. */
  ghost predicate Binds(b: Binding, decl: Node, name: Node, source: string, scopes: seq<Scope>) {
    && b.name == TextOf(name, source) && b.intro == decl.span.start
    && (if InnermostScope(b.intro, scopes).None? then b.scope == 0
        else InnermostScope(b.intro, scopes) == Some(b.scope))
  }

  /** From `n` the traversal enters every child but the declarators of a declaration. */
  ghost predicate Entered(n: Node, c: Node) {
    c in n.children && !(n.kind == Declaration && c.field == DeclaratorField)
  }

  /** The traversal goes from `n` down to `m`. */
  ghost predicate Traversed(n: Node, m: Node)
    decreases n
  {
    || m == n
    || exists c :: c in n.children && Entered(n, c) && Traversed(c, m)
  }

  ghost predicate InParameterList(f: Node, p: Node) {
    exists d, held, list :: IsFirst(f, DeclaratorField, d) && HoldsFunction(d, held)
                            && IsFirst(held, ParametersField, list) && p in list.children
  }

  ghost predicate DeclaresParameter(p: Node, decl: Node, name: Node) {
    p.kind == ParameterDeclaration && IsFirst(p, DeclaratorField, decl) && Declares(decl, name)
  }

  /** `decl` is a parameter's declarator in the parameter list of `f`, and `name` the identifier it declares. */
  ghost predicate ParameterOf(f: Node, decl: Node, name: Node) {
    exists p :: InParameterList(f, p) && DeclaresParameter(p, decl, name)
  }

  ghost predicate LocallyDeclares(m: Node, decl: Node, name: Node) {
    m.kind == Declaration && decl in m.children && decl.field == DeclaratorField && Declares(decl, name)
  }

  /** `decl` is a declarator of some declaration reached from `n`, and `name` the identifier it declares. */
  ghost predicate DeclaredLocally(n: Node, decl: Node, name: Node) {
    exists m :: Traversed(n, m) && LocallyDeclares(m, decl, name)
  }

  /** `decl` and `name` belong to a parameter of some function definition reached from `n`. */
  ghost predicate DeclaredAsParameter(n: Node, decl: Node, name: Node) {
    exists m :: Traversed(n, m) && m.kind == FunctionDefinition && ParameterOf(m, decl, name)
  }

  /** A parameter of a reached function, or a local of a reached declaration that is not at file scope. */
  ghost predicate IsBindingOf(n: Node, b: Binding, source: string, scopes: seq<Scope>) {
    match b.kind
    case ParamBinding => exists decl, name :: DeclaredAsParameter(n, decl, name) && Binds(b, decl, name, source, scopes)
    case LocalBinding =>
      exists decl, name :: DeclaredLocally(n, decl, name) && Binds(b, decl, name, source, scopes)
                           && InnermostScope(decl.span.start, scopes) != Some(0)
  }

  lemma BindBinds(b: Binding, kind: BindingKind, decl: Node, name: Node, source: string, scopes: seq<Scope>)
    ensures b == Bind(NodeText(name, source), decl.span.start, kind, scopes) <==>
            b.kind == kind && Binds(b, decl, name, source, scopes)
  {
    hide InnermostScope;
  }

  lemma LocalOfMeans(decl: Node, source: string, scopes: seq<Scope>, b: Binding)
    ensures b in LocalOf(decl, source, scopes) <==>
            && b.kind == LocalBinding && InnermostScope(decl.span.start, scopes) != Some(0)
            && exists name :: Declares(decl, name) && Binds(b, decl, name, source, scopes)
  {
    hide InnermostScope, DeclaratorName, Declares, Binds, Bind, NodeText;
    DeclaratorNameDeclares(decl);
    var found := DeclaratorName(decl);
    if found.Some? {
      BindBinds(b, LocalBinding, decl, found.value, source, scopes);
      assert Declares(decl, found.value);
      forall name | Declares(decl, name) ensures name == found.value {
        assert DeclaratorName(decl) == Some(name);
      }
    } else {
      forall name ensures !Declares(decl, name) {
        assert DeclaratorName(decl) != Some(name);
      }
    }
  }

  lemma NamedParameterMeans(p: Node)
    ensures forall decl, name :: NamedParameter(p) == Some((decl, name)) <==> DeclaresParameter(p, decl, name)
  {
    hide DeclaratorName, Declares, IsFirst, ChildByField;
    ChildByFieldIsFirst(p, DeclaratorField);
    var decl := ChildByField(p, DeclaratorField);
    if decl.Some? {
      DeclaratorNameDeclares(decl.value);
    }
    forall d, m ensures NamedParameter(p) == Some((d, m)) <==> DeclaresParameter(p, d, m) {
      assert IsFirst(p, DeclaratorField, d) <==> decl == Some(d);
      assert decl == Some(d) ==> (DeclaratorName(d) == Some(m) <==> Declares(d, m));
    }
  }

  lemma BindingOfParamMeans(p: Node, source: string, scopes: seq<Scope>, b: Binding)
    ensures b in BindingOfParam(p, source, scopes) <==>
            && b.kind == ParamBinding
            && exists decl, name :: DeclaresParameter(p, decl, name) && Binds(b, decl, name, source, scopes)
  {
    hide InnermostScope, Binds, Bind, NodeText, NamedParameter, DeclaresParameter;
    NamedParameterMeans(p);
    var named := NamedParameter(p);
    if named.Some? {
      var (decl, name) := named.value;
      BindBinds(b, ParamBinding, decl, name, source, scopes);
      assert DeclaresParameter(p, decl, name);
      forall d, m | DeclaresParameter(p, d, m) ensures d == decl && m == name {
        assert NamedParameter(p) == Some((d, m));
      }
    } else {
      forall d, m ensures !DeclaresParameter(p, d, m) {
        assert NamedParameter(p) != Some((d, m));
      }
    }
  }

  lemma {:induction false} ParamBindingsMean(params: seq<Node>, source: string, scopes: seq<Scope>, b: Binding)
    ensures b in ParamBindings(params, source, scopes) <==>
            exists p :: p in params && b in BindingOfParam(p, source, scopes)
  {
    hide BindingOfParam;
    if params == [] {
    } else {
      ParamBindingsMean(params[1..], source, scopes, b);
      assert params == [params[0]] + params[1..];
    }
  }

  lemma ParameterListMeans(f: Node, p: Node)
    ensures p in ParameterList(f) <==> InParameterList(f, p)
  {
    hide IsFirst, ChildByField, HoldsFunction, FindFunctionDeclarator;
    ChildByFieldIsFirst(f, DeclaratorField);
    var d := ChildByField(f, DeclaratorField);
    if d.Some? {
      FoundIsHeld(d.value);
      var held := FindFunctionDeclarator(d.value);
      if held.Some? {
        ChildByFieldIsFirst(held.value, ParametersField);
      }
    }
  }

  /** The parameter bindings of one function definition. */
  lemma FunctionBindingsMean(f: Node, source: string, scopes: seq<Scope>, b: Binding)
    ensures b in ParamBindings(ParameterList(f), source, scopes) <==>
            && b.kind == ParamBinding
            && exists decl, name :: ParameterOf(f, decl, name) && Binds(b, decl, name, source, scopes)
  {
    hide ParameterList, ParamBindings, BindingOfParam, Binds, InParameterList, DeclaresParameter;
    ParamBindingsMean(ParameterList(f), source, scopes, b);
    forall p ensures p in ParameterList(f) <==> InParameterList(f, p) {
      ParameterListMeans(f, p);
    }
    forall p ensures b in BindingOfParam(p, source, scopes) <==>
                     && b.kind == ParamBinding
                     && exists decl, name :: DeclaresParameter(p, decl, name) && Binds(b, decl, name, source, scopes)
    {
      BindingOfParamMeans(p, source, scopes, b);
    }
    if b in ParamBindings(ParameterList(f), source, scopes) {
      var p :| p in ParameterList(f) && b in BindingOfParam(p, source, scopes);
      var decl, name :| DeclaresParameter(p, decl, name) && Binds(b, decl, name, source, scopes);
      assert ParameterOf(f, decl, name);
    }
    if decl, name :| b.kind == ParamBinding && ParameterOf(f, decl, name) && Binds(b, decl, name, source, scopes) {
      var p :| InParameterList(f, p) && DeclaresParameter(p, decl, name);
      assert b in BindingOfParam(p, source, scopes);
    }
  }

  /** The binding comes from a child: a local of the declaration itself, or something further down. */
  ghost predicate ComesFrom(c: Node, declaration: bool, source: string, scopes: seq<Scope>, b: Binding) {
    if declaration && c.field == DeclaratorField then b in LocalOf(c, source, scopes)
    else b in BindingsOf(c, source, scopes)
  }

  lemma {:induction false} BindingsOfAllMean(nodes: seq<Node>, declaration: bool, source: string, scopes: seq<Scope>,
                                             b: Binding)
    ensures b in BindingsOfAll(nodes, declaration, source, scopes) <==>
            exists c :: c in nodes && ComesFrom(c, declaration, source, scopes, b)
  {
    hide BindingsOf, LocalOf;
    if nodes == [] {
    } else {
      BindingsOfAllMean(nodes[1..], declaration, source, scopes, b);
      assert nodes == [nodes[0]] + nodes[1..];
      assert b in BindingsOfAll(nodes, declaration, source, scopes) <==>
             ComesFrom(nodes[0], declaration, source, scopes, b)
             || b in BindingsOfAll(nodes[1..], declaration, source, scopes);
      if ComesFrom(nodes[0], declaration, source, scopes, b) {
        assert nodes[0] in nodes;
      }
    }
  }

  /** What is declared at a node is declared there or under a child that the traversal enters. */
  lemma DeclaredUnfold(n: Node, decl: Node, name: Node)
    ensures DeclaredLocally(n, decl, name) <==>
            LocallyDeclares(n, decl, name) || exists c :: Entered(n, c) && DeclaredLocally(c, decl, name)
    ensures DeclaredAsParameter(n, decl, name) <==>
            (n.kind == FunctionDefinition && ParameterOf(n, decl, name))
            || exists c :: Entered(n, c) && DeclaredAsParameter(c, decl, name)
  {
    hide LocallyDeclares, ParameterOf;
    assert Traversed(n, n);
    forall m ensures Traversed(n, m) <==> m == n || exists c :: Entered(n, c) && Traversed(c, m) {
    }
  }

  lemma IsBindingUnfold(n: Node, b: Binding, source: string, scopes: seq<Scope>)
    ensures IsBindingOf(n, b, source, scopes) <==>
            || (b.kind == ParamBinding && n.kind == FunctionDefinition
                && exists decl, name :: ParameterOf(n, decl, name) && Binds(b, decl, name, source, scopes))
            || (b.kind == LocalBinding
                && exists decl, name :: LocallyDeclares(n, decl, name) && Binds(b, decl, name, source, scopes)
                                        && InnermostScope(decl.span.start, scopes) != Some(0))
            || exists c :: Entered(n, c) && IsBindingOf(c, b, source, scopes)
  {
    hide InnermostScope, LocallyDeclares, ParameterOf, DeclaredLocally, DeclaredAsParameter, Binds, Entered;
    forall decl, name {
      DeclaredUnfold(n, decl, name);
    }
  }

  lemma LocalsOfDeclaration(n: Node, source: string, scopes: seq<Scope>, b: Binding)
    ensures (n.kind == Declaration
             && exists c :: c in n.children && c.field == DeclaratorField && b in LocalOf(c, source, scopes)) <==>
            b.kind == LocalBinding
            && exists decl, name :: LocallyDeclares(n, decl, name) && Binds(b, decl, name, source, scopes)
                                    && InnermostScope(decl.span.start, scopes) != Some(0)
  {
    hide InnermostScope, Binds, LocalOf, Declares;
    forall c {
      LocalOfMeans(c, source, scopes, b);
    }
    if n.kind == Declaration {
      if c :| c in n.children && c.field == DeclaratorField && b in LocalOf(c, source, scopes) {
        var name :| Declares(c, name) && Binds(b, c, name, source, scopes);
        assert LocallyDeclares(n, c, name);
      }
    }
  }

  /** The collector binds exactly the parameters and locals there are, each by its identifier, start and scope. */
  lemma {:induction false} BindingsAreExact(n: Node, source: string, scopes: seq<Scope>, b: Binding)
    ensures b in BindingsOf(n, source, scopes) <==> IsBindingOf(n, b, source, scopes)
    decreases n
  {
    hide InnermostScope, LocallyDeclares, ParameterOf, IsBindingOf, Binds, LocalOf, ParamBindings, ParameterList,
         BindingsOfAll;
    IsBindingUnfold(n, b, source, scopes);
    FunctionBindingsMean(n, source, scopes, b);
    BindingsOfAllMean(n.children, n.kind.Declaration?, source, scopes, b);
    forall c | c in n.children ensures b in BindingsOf(c, source, scopes) <==> IsBindingOf(c, b, source, scopes) {
      BindingsAreExact(c, source, scopes, b);
    }
    LocalsOfDeclaration(n, source, scopes, b);
  }

  // ----- The collector as the extractor runs it

  class BindingVector {
    var out: seq<Binding>

    constructor ()
      ensures out == []
    {
      out := [];
    }

    method PushBinding(name: string, intro: nat, kind: BindingKind, scopes: seq<Scope>)
      modifies this
      ensures out == old(out) + [Bind(name, intro, kind, scopes)]
    {
      var found := InnermostScope(intro, scopes);
      var scope := match found { case Some(s) => s case None => 0 };
      out := out + [Binding(scope, name, intro, kind)];
    }

    method CollectParam(child: Node, source: string, scopes: seq<Scope>)
      modifies this
      ensures out == old(out) + BindingOfParam(child, source, scopes)
    {
      if !child.kind.ParameterDeclaration? {
        return;
      }
      var decl := ChildByField(child, DeclaratorField);
      if decl.None? {
        return;
      }
      var name := DeclaratorName(decl.value);
      if name.None? {
        return;
      }
      PushBinding(NodeText(name.value, source), decl.value.span.start, ParamBinding, scopes);
    }

    method CollectParams(params: seq<Node>, source: string, scopes: seq<Scope>)
      modifies this
      ensures out == old(out) + ParamBindings(params, source, scopes)
    {
      hide BindingOfParam;
      assert params[0..] == params;
      for i := 0 to |params|
        invariant old(out) + ParamBindings(params, source, scopes) == out + ParamBindings(params[i..], source, scopes)
      {
        assert params[i..][0] == params[i] && params[i..][1..] == params[i + 1..];
        ghost var before, rest := out, ParamBindings(params[i + 1..], source, scopes);
        CollectParam(params[i], source, scopes);
        assert before + (BindingOfParam(params[i], source, scopes) + rest) == out + rest;
      }
    }

    method CollectLocal(decl: Node, source: string, scopes: seq<Scope>)
      modifies this
      ensures out == old(out) + LocalOf(decl, source, scopes)
    {
      var name := DeclaratorName(decl);
      if name.Some? {
        var intro := decl.span.start;
        if InnermostScope(intro, scopes) != Some(0) {
          PushBinding(NodeText(name.value, source), intro, LocalBinding, scopes);
        }
      }
    }

    method Dfs(n: Node, source: string, scopes: seq<Scope>)
      modifies this
      ensures out == old(out) + BindingsOf(n, source, scopes)
      decreases n, 0
    {
      if n.kind.FunctionDefinition? {
        CollectParams(ParameterList(n), source, scopes);
        DfsAll(n.children, false, source, scopes);
      } else {
        DfsAll(n.children, n.kind.Declaration?, source, scopes);
      }
    }

    method DfsAll(nodes: seq<Node>, declaration: bool, source: string, scopes: seq<Scope>)
      modifies this
      ensures out == old(out) + BindingsOfAll(nodes, declaration, source, scopes)
      decreases nodes, 1
    {
      hide LocalOf, BindingsOf;
      assert nodes[0..] == nodes;
      for i := 0 to |nodes|
        invariant old(out) + BindingsOfAll(nodes, declaration, source, scopes) ==
                  out + BindingsOfAll(nodes[i..], declaration, source, scopes)
      {
        var child := nodes[i];
        assert nodes[i..][0] == child && nodes[i..][1..] == nodes[i + 1..];
        ghost var before, rest := out, BindingsOfAll(nodes[i + 1..], declaration, source, scopes);
        if declaration && child.field == DeclaratorField {
          CollectLocal(child, source, scopes);
          assert before + (LocalOf(child, source, scopes) + rest) == out + rest;
        } else {
          Dfs(child, source, scopes);
          assert before + (BindingsOf(child, source, scopes) + rest) == out + rest;
        }
      }
    }
  }

  /** The parameter and local bindings of one file. */
  method CollectBindings(root: Node, source: string, scopes: seq<Scope>) returns (bindings: seq<Binding>)
    ensures bindings == BindingsOf(root, source, scopes)
    ensures forall b :: b in bindings <==> IsBindingOf(root, b, source, scopes)
  {
    hide IsBindingOf, BindingsOf;
    forall b ensures b in BindingsOf(root, source, scopes) <==> IsBindingOf(root, b, source, scopes) {
      BindingsAreExact(root, source, scopes, b);
    }
    var out := new BindingVector();
    out.Dfs(root, source, scopes);
    bindings := out.out;
  }

  // ----- Where bindings land

  /** Every binding is bound at the innermost scope of its introduction; a local never at the file scope. */
  ghost predicate WellBound(b: Binding, scopes: seq<Scope>, sourceLen: nat) {
    && b.scope < |scopes|
    && (b.intro < sourceLen ==>
          InnermostScope(b.intro, scopes) == Some(b.scope) && scopes[b.scope].span.Contains(b.intro))
    && (b.intro < sourceLen && b.kind.LocalBinding? ==> b.scope > 0)
  }

  lemma BindWellBound(name: string, intro: nat, scopes: seq<Scope>, sourceLen: nat)
    requires IsLaminar(scopes, sourceLen)
    ensures WellBound(Bind(name, intro, ParamBinding, scopes), scopes, sourceLen)
    ensures InnermostScope(intro, scopes) != Some(0) ==>
              WellBound(Bind(name, intro, LocalBinding, scopes), scopes, sourceLen)
  {
    InnermostChain(intro, scopes, sourceLen);
  }

  lemma {:induction false} ParamsWellBound(params: seq<Node>, source: string, scopes: seq<Scope>, sourceLen: nat)
    requires IsLaminar(scopes, sourceLen)
    ensures forall b :: b in ParamBindings(params, source, scopes) ==> WellBound(b, scopes, sourceLen)
  {
    hide IsLaminar, WellBound, Bind, NamedParameter, NodeText;
    if params == [] {
    } else {
      ParamsWellBound(params[1..], source, scopes, sourceLen);
      match NamedParameter(params[0])
      case Some((decl, name)) => BindWellBound(NodeText(name, source), decl.span.start, scopes, sourceLen);
      case None =>
    }
  }

  lemma {:induction false} BindingsWellBound(n: Node, source: string, scopes: seq<Scope>, sourceLen: nat)
    requires IsLaminar(scopes, sourceLen)
    ensures forall b :: b in BindingsOf(n, source, scopes) ==> WellBound(b, scopes, sourceLen)
    decreases n, 0
  {
    hide IsLaminar, WellBound, ParamBindings, BindingsOfAll;
    BindingsOfAllWellBound(n.children, n.kind.Declaration?, source, scopes, sourceLen);
    if n.kind.FunctionDefinition? {
      ParamsWellBound(ParameterList(n), source, scopes, sourceLen);
    }
  }

  lemma {:induction false} BindingsOfAllWellBound(nodes: seq<Node>, declaration: bool, source: string,
                                                  scopes: seq<Scope>, sourceLen: nat)
    requires IsLaminar(scopes, sourceLen)
    ensures forall b :: b in BindingsOfAll(nodes, declaration, source, scopes) ==> WellBound(b, scopes, sourceLen)
    decreases nodes, 1
  {
    hide IsLaminar, WellBound, BindingsOf, Bind, InnermostScope;
    if nodes == [] {
    } else {
      BindingsOfAllWellBound(nodes[1..], declaration, source, scopes, sourceLen);
      if declaration && nodes[0].field == DeclaratorField {
        var name := DeclaratorName(nodes[0]);
        if name.Some? {
          BindWellBound(NodeText(name.value, source), nodes[0].span.start, scopes, sourceLen);
        }
      } else {
        BindingsWellBound(nodes[0], source, scopes, sourceLen);
      }
    }
  }

  lemma ParameterListInside(f: Node)
    requires WellFormed(f) && ParameterList(f) != []
    ensures ChildByField(f, DeclaratorField).Some?
    ensures var d := ChildByField(f, DeclaratorField).value;
            forall p :: p in ParameterList(f) ==> WellFormed(p) && Inside(p.span, d.span)
  {
    var d := ChildByField(f, DeclaratorField).value;
    ChildFacts(f, d);
    FoundInside(d);
    var fnDecl := FindFunctionDeclarator(d).value;
    var params := ChildByField(fnDecl, ParametersField).value;
    ChildFacts(fnDecl, params);
  }

  /** Every binding with a name is introduced within a span. */
  ghost predicate NamedWithin(bindings: seq<Binding>, span: ByteSpan) {
    forall b :: b in bindings && b.name != "" ==> span.Contains(b.intro)
  }

  lemma NamedStartsWithin(decl: Node, source: string, span: ByteSpan)
    requires WellFormed(decl) && Inside(decl.span, span)
    ensures var name := DeclaratorName(decl);
            name.Some? && NodeText(name.value, source) != "" ==> span.Contains(decl.span.start)
  {
    hide DeclaratorName;
    NameInside(decl);
  }

  lemma {:induction false} ParamsNamedWithin(params: seq<Node>, source: string, scopes: seq<Scope>, span: ByteSpan)
    requires forall p :: p in params ==> WellFormed(p) && Inside(p.span, span)
    ensures NamedWithin(ParamBindings(params, source, scopes), span)
  {
    hide WellFormed, NodeText, DeclaratorName, InnermostScope;
    if params == [] {
    } else {
      ParamsNamedWithin(params[1..], source, scopes, span);
      if NamedParameter(params[0]).Some? {
        var decl := ChildByField(params[0], DeclaratorField).value;
        ChildFacts(params[0], decl);
        NamedStartsWithin(decl, source, span);
      }
    }
  }

  lemma NoParams(source: string, scopes: seq<Scope>)
    ensures ParamBindings([], source, scopes) == []
  {
  }

  lemma {:induction false} BindingsNamedWithin(n: Node, source: string, scopes: seq<Scope>)
    requires WellFormed(n)
    ensures NamedWithin(BindingsOf(n, source, scopes), n.span)
    decreases n, 0
  {
    hide WellFormed, ParamBindings, BindingsOfAll, ParameterList;
    forall c | c in n.children ensures WellFormed(c) && Inside(c.span, n.span) {
      ChildFacts(n, c);
    }
    BindingsOfAllNamedWithin(n.children, n.kind.Declaration?, source, scopes, n.span);
    if n.kind.FunctionDefinition? && ParameterList(n) != [] {
      ParameterListInside(n);
      ChildFacts(n, ChildByField(n, DeclaratorField).value);
      ParamsNamedWithin(ParameterList(n), source, scopes, n.span);
    } else {
      NoParams(source, scopes);
    }
  }

  lemma {:induction false} BindingsOfAllNamedWithin(nodes: seq<Node>, declaration: bool, source: string,
                                                    scopes: seq<Scope>, span: ByteSpan)
    requires forall n :: n in nodes ==> WellFormed(n) && Inside(n.span, span)
    ensures NamedWithin(BindingsOfAll(nodes, declaration, source, scopes), span)
    decreases nodes, 1
  {
    hide WellFormed, BindingsOf, NodeText, DeclaratorName, InnermostScope;
    if nodes == [] {
    } else {
      BindingsOfAllNamedWithin(nodes[1..], declaration, source, scopes, span);
      if declaration && nodes[0].field == DeclaratorField {
        NamedStartsWithin(nodes[0], source, span);
      } else {
        BindingsNamedWithin(nodes[0], source, scopes);
      }
    }
  }

  /** Bindings of one kind that have names come in strictly increasing order of introduction, so each once. */
  ghost predicate NamedAscend(bindings: seq<Binding>, kind: BindingKind) {
    forall i, j :: 0 <= i < j < |bindings| ==>
      bindings[i].kind == bindings[j].kind == kind && bindings[i].name != "" && bindings[j].name != "" ==>
        bindings[i].intro < bindings[j].intro
  }

  lemma AscendJoin(a: seq<Binding>, b: seq<Binding>, kind: BindingKind, first: ByteSpan, rest: ByteSpan)
    requires NamedAscend(a, kind) && NamedAscend(b, kind) && first.end <= rest.start
    requires NamedWithin(a, first) && NamedWithin(b, rest)
    ensures NamedAscend(a + b, kind)
  {
    var all := a + b;
    forall i, j | 0 <= i < j < |all| && all[i].kind == all[j].kind == kind && all[i].name != "" && all[j].name != ""
      ensures all[i].intro < all[j].intro
    {
      assert i < |a| ==> all[i] in a;
      assert j >= |a| ==> all[j] in b;
    }
  }

  lemma OtherKindAscends(a: seq<Binding>, b: seq<Binding>, kind: BindingKind)
    requires NamedAscend(b, kind) && forall x :: x in a ==> x.kind != kind
    ensures NamedAscend(a + b, kind)
  {
    assert forall i :: 0 <= i < |a| ==> (a + b)[i] in a;
  }

  lemma OneParam(p: Node, source: string, scopes: seq<Scope>)
    ensures ParamBindings([p], source, scopes) == BindingOfParam(p, source, scopes)
    ensures |BindingOfParam(p, source, scopes)| <= 1
  {
    assert [p][1..] == [];
  }

  lemma MembersWellFormed(nodes: seq<Node>, span: ByteSpan)
    requires AllWellFormed(nodes, span)
    ensures forall n :: n in nodes ==> WellFormed(n) && Inside(n.span, span)
  {
  }

  /** The parameters of one list come in source order, each once. */
  lemma {:induction false} ParamsAscend(params: seq<Node>, source: string, scopes: seq<Scope>, span: ByteSpan)
    requires AllWellFormed(params, span) && span.start <= span.end
    ensures NamedAscend(ParamBindings(params, source, scopes), ParamBinding)
    decreases |params|
  {
    hide AllWellFormed, WellFormed, BindingOfParam;
    if params == [] {
    } else {
      OrderedTail(params, span);
      var rest := ByteSpan(params[0].span.end, span.end);
      ParamsAscend(params[1..], source, scopes, rest);
      MembersWellFormed(params[1..], rest);
      ParamsNamedWithin(params[1..], source, scopes, rest);
      ParamsNamedWithin([params[0]], source, scopes, params[0].span);
      OneParam(params[0], source, scopes);
      AscendJoin(BindingOfParam(params[0], source, scopes), ParamBindings(params[1..], source, scopes), ParamBinding,
                 params[0].span, rest);
    }
  }

  lemma NodeIsOrdered(n: Node)
    requires WellFormed(n)
    ensures AllWellFormed(n.children, n.span) && n.span.start <= n.span.end
  {
  }

  lemma OneLocal(decl: Node, source: string, scopes: seq<Scope>)
    requires WellFormed(decl)
    ensures |LocalOf(decl, source, scopes)| <= 1 && NamedWithin(LocalOf(decl, source, scopes), decl.span)
  {
    hide DeclaratorName, InnermostScope;
    NamedStartsWithin(decl, source, decl.span);
  }

  /** The locals of a file come in source order, each once. */
  lemma {:induction false} LocalsAscend(n: Node, source: string, scopes: seq<Scope>)
    requires WellFormed(n)
    ensures NamedAscend(BindingsOf(n, source, scopes), LocalBinding)
    decreases n, 0
  {
    hide WellFormed, ParamBindings, BindingsOfAll, ParameterList, NamedAscend;
    NodeIsOrdered(n);
    AllLocalsAscend(n.children, n.kind.Declaration?, source, scopes, n.span);
    if n.kind.FunctionDefinition? {
      forall b | b in ParamBindings(ParameterList(n), source, scopes) ensures b.kind == ParamBinding {
        FunctionBindingsMean(n, source, scopes, b);
      }
      OtherKindAscends(ParamBindings(ParameterList(n), source, scopes),
                       BindingsOfAll(n.children, false, source, scopes), LocalBinding);
    }
  }

  lemma {:induction false} AllLocalsAscend(nodes: seq<Node>, declaration: bool, source: string, scopes: seq<Scope>,
                                           span: ByteSpan)
    requires AllWellFormed(nodes, span) && span.start <= span.end
    ensures NamedAscend(BindingsOfAll(nodes, declaration, source, scopes), LocalBinding)
    decreases nodes, 1
  {
    hide AllWellFormed, WellFormed, BindingsOf, LocalOf;
    if nodes == [] {
    } else {
      OrderedTail(nodes, span);
      var rest := ByteSpan(nodes[0].span.end, span.end);
      AllLocalsAscend(nodes[1..], declaration, source, scopes, rest);
      MembersWellFormed(nodes[1..], rest);
      BindingsOfAllNamedWithin(nodes[1..], declaration, source, scopes, rest);
      var later := BindingsOfAll(nodes[1..], declaration, source, scopes);
      if declaration && nodes[0].field == DeclaratorField {
        OneLocal(nodes[0], source, scopes);
        AscendJoin(LocalOf(nodes[0], source, scopes), later, LocalBinding, nodes[0].span, rest);
      } else {
        LocalsAscend(nodes[0], source, scopes);
        BindingsNamedWithin(nodes[0], source, scopes);
        AscendJoin(BindingsOf(nodes[0], source, scopes), later, LocalBinding, nodes[0].span, rest);
      }
    }
  }

  /** Where the declarator of a function definition ends. */
  function DeclaratorEnd(f: Node): nat {
    var d := ChildByField(f, DeclaratorField);
    if d.Some? then d.value.span.end else f.span.start
  }

  /** A parameter with a name starts before the declarator of its function ends. */
  lemma NamedStartsInDeclarator(f: Node, child: Node, source: string)
    requires WellFormed(f) && child in ParameterList(f)
    requires NamedParameter(child).Some? && NodeText(NamedParameter(child).value.1, source) != ""
    ensures NamedParameter(child).value.0.span.start < DeclaratorEnd(f)
  {
    hide FindFunctionDeclarator, ParameterList;
    ParameterListInside(f);
    var (decl, name) := NamedParameter(child).value;
    ChildFacts(child, decl);
    NameInside(decl);
  }

  /**
   A parameter that starts before the declarator ends starts inside its function, outside everything
   the scope walk visits there.
   */
  lemma ParameterByte(f: Node, child: Node)
    requires WellFormed(f) && f.kind.FunctionDefinition? && child in ParameterList(f)
    requires NamedParameter(child).Some? && NamedParameter(child).value.0.span.start < DeclaratorEnd(f)
    ensures var intro := NamedParameter(child).value.0.span.start;
            f.span.Contains(intro) && forall v :: v in Visited(C, f) ==> !v.span.Contains(intro)
  {
    hide FindFunctionDeclarator, ParameterList;
    ParameterListInside(f);
    var d := ChildByField(f, DeclaratorField).value;
    var (decl, name) := NamedParameter(child).value;
    ChildFacts(child, decl);
    ChildFacts(f, d);
    var intro := decl.span.start;
    assert d.span.Contains(intro);
    var body := ChildByField(f, BodyField);
    if body.Some? {
      FieldsApart(f, d, body.value, intro);
      ChildFacts(f, body.value);
      forall v | v in body.value.children ensures !v.span.Contains(intro) {
        ChildFacts(body.value, v);
      }
    }
  }

  lemma ParameterBindsInOwn(root: Node, source: string, k: nat, child: Node)
    requires WellFormed(root) && root.span.end <= |source|
    requires k < |OwnersAll(C, root.children)| && OwnersAll(C, root.children)[k].kind.FunctionDefinition?
    requires child in ParameterList(OwnersAll(C, root.children)[k])
    ensures var scopes, f := ScopesOf(C, root, |source|), OwnersAll(C, root.children)[k];
            forall b :: b in BindingOfParam(child, source, scopes) ==>
              b.name != "" || b.intro < DeclaratorEnd(f) ==> b.scope == k + 1
  {
    hide WellFormed, IsLaminar, ParameterList, Owners, Visited, InnermostScope, OwnersAll, ScopesOf, NodeText,
         DeclaratorEnd, NamedParameter;
    var f := OwnersAll(C, root.children)[k];
    var named := NamedParameter(child);
    if named.Some? {
      var intro := named.value.0.span.start;
      RootIsOrdered(root);
      var i := OwnerInsideSome(C, root.children, root.span, k);
      if NodeText(named.value.1, source) != "" {
        NamedStartsInDeclarator(f, child, source);
      }
      if intro < DeclaratorEnd(f) {
        ParameterByte(f, child);
        OwnScope(C, root, |source|, k, intro);
      }
    }
  }

  /**
   Each parameter of a function definition the scope walk reaches is bound in that function's own
   scope, never in an outer or a block scope, when it starts before the function's declarator ends,
   as every parameter with a name does.
   */
  lemma {:induction false} ParametersBindInOwnFunction(root: Node, source: string, k: nat, params: seq<Node>)
    requires WellFormed(root) && root.span.end <= |source|
    requires k < |OwnersAll(C, root.children)| && OwnersAll(C, root.children)[k].kind.FunctionDefinition?
    requires forall p :: p in params ==> p in ParameterList(OwnersAll(C, root.children)[k])
    ensures var scopes, f := ScopesOf(C, root, |source|), OwnersAll(C, root.children)[k];
            && |scopes| == |OwnersAll(C, root.children)| + 1
            && scopes[k + 1].kind == FunctionScope && scopes[k + 1].span == f.span
            && forall b :: b in ParamBindings(params, source, scopes) ==>
                 b.name != "" || b.intro < DeclaratorEnd(f) ==> b.scope == k + 1
    decreases |params|
  {
    hide WellFormed, IsLaminar, ParameterList, Owners, Visited, InnermostScope, OwnersAll, WalkAll, NodeText,
         DeclaratorEnd;
    var f := OwnersAll(C, root.children)[k];
    OwnersAllOpen(C, root.children, 0, 1);
    if params == [] {
    } else {
      ParametersBindInOwnFunction(root, source, k, params[1..]);
      ParameterBindsInOwn(root, source, k, params[0]);
    }
  }

  /**
   For any parameter, named or not: its binding is in its function's scope exactly when its declarator
   starts within the function and within no scope-opening node below it.
   */
  lemma ParameterBoundExactly(root: Node, source: string, k: nat, child: Node)
    requires WellFormed(root) && root.span.end <= |source|
    requires k < |OwnersAll(C, root.children)| && child in ParameterList(OwnersAll(C, root.children)[k])
    requires NamedParameter(child).Some?
    ensures var owners := OwnersAll(C, root.children);
            var intro := NamedParameter(child).value.0.span.start;
            && |BindingOfParam(child, source, ScopesOf(C, root, |source|))| == 1
            && (BindingOfParam(child, source, ScopesOf(C, root, |source|))[0].scope == k + 1 <==>
                owners[k].span.Contains(intro) && forall j :: k < j < |owners| ==> !owners[j].span.Contains(intro))
  {
    hide WellFormed, IsLaminar, ParameterList, InnermostScope, OwnersAll, ScopesOf, NamedParameter;
    var intro := NamedParameter(child).value.0.span.start;
    OwnScopeExactly(C, root, |source|, k, intro);
  }

  // ----- All parameters of a file

  /** The bodies of function definitions are blocks. */
  ghost predicate BodiesAreBlocks(n: Node) {
    && (n.kind.FunctionDefinition? && ChildByField(n, BodyField).Some? ==>
          ChildByField(n, BodyField).value.kind.CompoundStatement?)
    && forall c :: c in n.children ==> BodiesAreBlocks(c)
  }

  /** Every parameter with a name is bound in the scope of a function. */
  ghost predicate ParamsInFunctions(bindings: seq<Binding>, scopes: seq<Scope>) {
    forall b :: b in bindings && b.kind.ParamBinding? && b.name != "" ==>
      b.scope < |scopes| && scopes[b.scope].kind.FunctionScope?
  }

  /** `part` are the scope-opening nodes of a file from the k-th on. */
  ghost predicate OwnersFrom(root: Node, part: seq<Node>, k: nat) {
    var owners := OwnersAll(C, root.children);
    k + |part| <= |owners| && owners[k..k + |part|] == part
  }

  lemma OwnersSplit(root: Node, first: seq<Node>, rest: seq<Node>, k: nat)
    requires OwnersFrom(root, first + rest, k)
    ensures OwnersFrom(root, first, k) && OwnersFrom(root, rest, k + |first|)
  {
    var owners := OwnersAll(C, root.children);
    var part := owners[k..k + |first + rest|];
    assert part[..|first|] == first && part[|first|..] == rest;
    assert owners[k..k + |first|] == part[..|first|];
    assert owners[k + |first|..k + |first| + |rest|] == part[|first|..];
  }

  lemma OwnersUnfold(n: Node)
    ensures Owners(C, n) == (if RuleFor(C, n.kind).Descend? then [] else [n]) + OwnersAll(C, Visited(C, n))
  {
  }

  /** A function definition the scope walk reaches opens a function scope. */
  lemma OwnerIsFunction(root: Node, sourceLen: nat, f: Node, k: nat)
    requires f.kind.FunctionDefinition? && OwnersFrom(root, Owners(C, f), k)
    ensures var scopes := ScopesOf(C, root, sourceLen);
            && k + 1 < |scopes| && scopes[k + 1].kind == FunctionScope
            && k < |OwnersAll(C, root.children)| && OwnersAll(C, root.children)[k] == f
            && OwnersFrom(root, OwnersAll(C, Visited(C, f)), k + 1)
  {
    hide WalkAll, OwnersAll, Owners, Visited;
    OwnersUnfold(f);
    OwnersSplit(root, [f], OwnersAll(C, Visited(C, f)), k);
    OwnersAllOpen(C, root.children, 0, 1);
    assert OwnersAll(C, root.children)[k..k + 1][0] == f;
  }

  lemma NotInBody(f: Node, i: nat, byte: nat)
    requires WellFormed(f) && f.kind.FunctionDefinition? && i < |f.children|
    requires FieldIndex(f.children, BodyField) != Some(i) && f.children[i].span.Contains(byte)
    ensures f.span.Contains(byte) && forall v :: v in Visited(C, f) ==> !v.span.Contains(byte)
  {
    ChildFacts(f, f.children[i]);
    var body := FieldIndex(f.children, BodyField);
    if body.Some? {
      ChildFacts(f, f.children[body.value]);
      assert body.value < i ==> f.children[body.value].span.end <= f.children[i].span.start;
      assert i < body.value ==> f.children[i].span.end <= f.children[body.value].span.start;
      forall v | v in f.children[body.value].children ensures !v.span.Contains(byte) {
        ChildFacts(f.children[body.value], v);
      }
    }
  }

  /** Whatever a child of a reached function other than its body contains is bound in that function's scope. */
  lemma OutsideBody(root: Node, source: string, f: Node, k: nat, i: nat)
    requires WellFormed(root) && root.span.end <= |source| && WellFormed(f) && f.kind.FunctionDefinition?
    requires OwnersFrom(root, Owners(C, f), k)
    requires i < |f.children| && FieldIndex(f.children, BodyField) != Some(i)
    ensures ParamsInFunctions(BindingsOf(f.children[i], source, ScopesOf(C, root, |source|)),
                              ScopesOf(C, root, |source|))
  {
    hide WellFormed, IsLaminar, Owners, OwnersAll, InnermostScope, ScopesOf, BindingsOf, OwnersFrom, Visited;
    var scopes, c := ScopesOf(C, root, |source|), f.children[i];
    var bindings := BindingsOf(c, source, scopes);
    OwnerIsFunction(root, |source|, f, k);
    ScopesAreLaminar(C, root, |source|);
    BindingsWellBound(c, source, scopes, |source|);
    ChildFacts(f, c);
    BindingsNamedWithin(c, source, scopes);
    forall b | b in bindings && b.name != "" ensures b.scope == k + 1 {
      NotInBody(f, i, b.intro);
      OwnScope(C, root, |source|, k, b.intro);
      InnermostChain(b.intro, scopes, |source|);
    }
  }

  /** The parameters of a reached function itself. */
  lemma FunctionParams(root: Node, source: string, f: Node, k: nat)
    requires WellFormed(root) && root.span.end <= |source| && f.kind.FunctionDefinition?
    requires k < |OwnersAll(C, root.children)| && OwnersAll(C, root.children)[k] == f
    ensures ParamsInFunctions(ParamBindings(ParameterList(f), source, ScopesOf(C, root, |source|)),
                              ScopesOf(C, root, |source|))
  {
    hide WellFormed, OwnersAll, ScopesOf, ParamBindings, ParameterList;
    ParametersBindInOwnFunction(root, source, k, ParameterList(f));
  }

  lemma BlockBindings(block: Node, source: string, scopes: seq<Scope>)
    requires block.kind.CompoundStatement?
    ensures BindingsOf(block, source, scopes) == BindingsOfAll(block.children, false, source, scopes)
  {
  }

  /** A node the scope walk reaches, with the scopes it opens from the k-th on. */
  lemma {:induction false} WalkedParams(root: Node, source: string, n: Node, k: nat)
    requires WellFormed(root) && root.span.end <= |source| && WellFormed(n) && BodiesAreBlocks(n)
    requires OwnersFrom(root, Owners(C, n), k)
    ensures ParamsInFunctions(BindingsOf(n, source, ScopesOf(C, root, |source|)), ScopesOf(C, root, |source|))
    decreases n, 1
  {
    hide WellFormed, Owners, OwnersAll, OwnersFrom, ScopesOf, BindingsOfAll, ParamBindings, ParameterList;
    var scopes := ScopesOf(C, root, |source|);
    forall c | c in n.children ensures WellFormed(c) && BodiesAreBlocks(c) {
      ChildFacts(n, c);
    }
    if n.kind.FunctionDefinition? {
      OwnerIsFunction(root, |source|, n, k);
      FunctionParams(root, source, n, k);
      WalkedFunction(root, source, n, k, 0);
      assert n.children[0..] == n.children;
    } else {
      OwnersUnfold(n);
      OwnersSplit(root, if n.kind.CompoundStatement? then [n] else [], OwnersAll(C, n.children), k);
      WalkedParamsAll(root, source, n.children, n.kind.Declaration?, if n.kind.CompoundStatement? then k + 1 else k);
    }
  }

  /** The children of a reached function from the i-th on: its body is walked, the others are not. */
  lemma {:induction false} WalkedFunction(root: Node, source: string, f: Node, k: nat, i: nat)
    requires WellFormed(root) && root.span.end <= |source| && WellFormed(f) && BodiesAreBlocks(f)
    requires f.kind.FunctionDefinition? && OwnersFrom(root, Owners(C, f), k) && i <= |f.children|
    ensures ParamsInFunctions(BindingsOfAll(f.children[i..], false, source, ScopesOf(C, root, |source|)),
                              ScopesOf(C, root, |source|))
    decreases f, 0, |f.children| - i
  {
    hide WellFormed, Owners, OwnersAll, OwnersFrom, ScopesOf, BindingsOf, FieldIndex;
    if i == |f.children| {
    } else {
      WalkedFunction(root, source, f, k, i + 1);
      assert f.children[i..][0] == f.children[i] && f.children[i..][1..] == f.children[i + 1..];
      if FieldIndex(f.children, BodyField) == Some(i) {
        var body := f.children[i];
        OwnerIsFunction(root, |source|, f, k);
        forall c | c in body.children ensures WellFormed(c) && BodiesAreBlocks(c) {
          ChildFacts(f, body);
          ChildFacts(body, c);
        }
        WalkedParamsAll(root, source, body.children, false, k + 1);
        BlockBindings(body, source, ScopesOf(C, root, |source|));
      } else {
        OutsideBody(root, source, f, k, i);
      }
    }
  }

  lemma {:induction false} WalkedParamsAll(root: Node, source: string, nodes: seq<Node>, declaration: bool, k: nat)
    requires WellFormed(root) && root.span.end <= |source|
    requires forall n :: n in nodes ==> WellFormed(n) && BodiesAreBlocks(n)
    requires OwnersFrom(root, OwnersAll(C, nodes), k)
    ensures ParamsInFunctions(BindingsOfAll(nodes, declaration, source, ScopesOf(C, root, |source|)),
                              ScopesOf(C, root, |source|))
    decreases nodes, 2
  {
    hide WellFormed, Owners, OwnersFrom, ScopesOf, BindingsOf, BodiesAreBlocks, InnermostScope;
    if nodes == [] {
    } else {
      OwnersSplit(root, Owners(C, nodes[0]), OwnersAll(C, nodes[1..]), k);
      WalkedParams(root, source, nodes[0], k);
      WalkedParamsAll(root, source, nodes[1..], declaration, k + |Owners(C, nodes[0])|);
    }
  }

  /**
   In a whole C file every parameter with a name is bound in the scope of a function, those of functions
   that only the bindings traversal visits included.
   */
  lemma EveryParameterIsInAFunction(root: Node, source: string)
    requires WellFormed(root) && root.span.end <= |source| && BodiesAreBlocks(root)
    requires !root.kind.FunctionDefinition?
    ensures var scopes := ScopesOf(C, root, |source|);
            ParamsInFunctions(BindingsOf(root, source, scopes), scopes)
  {
    hide WellFormed, OwnersAll, ScopesOf, BindingsOfAll;
    forall c | c in root.children ensures WellFormed(c) && BodiesAreBlocks(c) {
      ChildFacts(root, c);
    }
    var owners := OwnersAll(C, root.children);
    assert owners[0..|owners|] == owners;
    WalkedParamsAll(root, source, root.children, root.kind.Declaration?, 0);
  }
}
