/**
 C declarators: which identifier a declarator declares, and which function declarator it holds, as the
 extractor finds them and as relations on the tree.
 */
module Declarators {
  import opened Graph
  import opened Syntax

  /** The first function declarator of a declarator chain, whatever wraps it. */
  function FindFunctionDeclarator(n: Node): Option<Node>
    decreases n, 0
  {
    if n.kind.FunctionDeclarator? then Some(n) else
      var inner := ChildByField(n, DeclaratorField);
      if inner.Some? then FindFunctionDeclarator(inner.value) else FindAmong(n.children)
  }

  function FindAmong(nodes: seq<Node>): Option<Node>
    decreases nodes, 1
  {
    if nodes == [] then None else
      var found := FindFunctionDeclarator(nodes[0]);
      if found.Some? then found else FindAmong(nodes[1..])
  }

  /** The identifier at the end of a declarator chain. */
  function DeclaratorName(n: Node): Option<Node>
    decreases n, 0
  {
    if n.kind.Identifier? || n.kind.TypeIdentifier? || n.kind.FieldIdentifier? then Some(n) else
      var inner := ChildByField(n, DeclaratorField);
      if inner.Some? then DeclaratorName(inner.value)
      else if n.kind.FunctionDeclarator? then None
      else NameAmong(n.children)
  }

  function NameAmong(nodes: seq<Node>): Option<Node>
    decreases nodes, 1
  {
    if nodes == [] then None else
      var found := DeclaratorName(nodes[0]);
      if found.Some? then found else NameAmong(nodes[1..])
  }

  lemma {:induction false} FoundInside(n: Node)
    requires WellFormed(n)
    ensures var f := FindFunctionDeclarator(n); f.Some? ==> WellFormed(f.value) && Inside(f.value.span, n.span)
    decreases n, 0
  {
    if n.kind.FunctionDeclarator? {
    } else {
      var inner := ChildByField(n, DeclaratorField);
      if inner.Some? {
        FoundInside(inner.value);
      } else {
        FoundAmongInside(n.children, n.span);
      }
    }
  }

  lemma {:induction false} FoundAmongInside(nodes: seq<Node>, span: ByteSpan)
    requires forall c :: c in nodes ==> WellFormed(c) && Inside(c.span, span)
    ensures var f := FindAmong(nodes); f.Some? ==> WellFormed(f.value) && Inside(f.value.span, span)
    decreases nodes, 1
  {
    if nodes == [] {
    } else {
      FoundInside(nodes[0]);
      FoundAmongInside(nodes[1..], span);
    }
  }

  lemma {:induction false} NameInside(n: Node)
    requires WellFormed(n)
    ensures var f := DeclaratorName(n); f.Some? ==> Inside(f.value.span, n.span)
    decreases n, 0
  {
    if n.kind.Identifier? || n.kind.TypeIdentifier? || n.kind.FieldIdentifier? {
    } else {
      var inner := ChildByField(n, DeclaratorField);
      if inner.Some? {
        NameInside(inner.value);
      } else {
        NameAmongInside(n.children, n.span);
      }
    }
  }

  lemma {:induction false} NameAmongInside(nodes: seq<Node>, span: ByteSpan)
    requires forall c :: c in nodes ==> WellFormed(c) && Inside(c.span, span)
    ensures var f := NameAmong(nodes); f.Some? ==> Inside(f.value.span, span)
    decreases nodes, 1
  {
    if nodes == [] {
    } else {
      NameInside(nodes[0]);
      NameAmongInside(nodes[1..], span);
    }
  }

  // ----- The same as relations

  /**
   A name declares itself. Any other declarator declares what its first declarator child declares; without
   one, a function declarator declares nothing, and the others what the first child to declare anything does.
   */
  ghost predicate Declares(d: Node, name: Node)
    decreases d, 0
  {
    if d.kind == Identifier || d.kind == TypeIdentifier || d.kind == FieldIdentifier then name == d
    else if exists i: nat :: FirstFills(d.children, DeclaratorField, i) then
      exists i: nat :: FirstFills(d.children, DeclaratorField, i) && Declares(d.children[i], name)
    else d.kind != FunctionDeclarator && DeclaresAmong(d.children, name)
  }

  ghost predicate DeclaresAmong(nodes: seq<Node>, name: Node)
    decreases nodes, 1
  {
    nodes != [] && (Declares(nodes[0], name)
                    || ((forall m :: !Declares(nodes[0], m)) && DeclaresAmong(nodes[1..], name)))
  }

  /**
   A function declarator holds itself. Any other declarator holds what its first declarator child holds;
   without one, what the first child to hold anything does.
   */
  ghost predicate HoldsFunction(d: Node, f: Node)
    decreases d, 0
  {
    if d.kind == FunctionDeclarator then f == d
    else if exists i: nat :: FirstFills(d.children, DeclaratorField, i) then
      exists i: nat :: FirstFills(d.children, DeclaratorField, i) && HoldsFunction(d.children[i], f)
    else HoldsFunctionAmong(d.children, f)
  }

  ghost predicate HoldsFunctionAmong(nodes: seq<Node>, f: Node)
    decreases nodes, 1
  {
    nodes != [] && (HoldsFunction(nodes[0], f)
                    || ((forall m :: !HoldsFunction(nodes[0], m)) && HoldsFunctionAmong(nodes[1..], f)))
  }

  lemma {:induction false} DeclaratorNameDeclares(d: Node)
    ensures forall x :: DeclaratorName(d) == Some(x) <==> Declares(d, x)
    decreases d, 0
  {
    FirstIsFieldIndex(d.children, DeclaratorField);
    var found := FieldIndex(d.children, DeclaratorField);
    if d.kind.Identifier? || d.kind.TypeIdentifier? || d.kind.FieldIdentifier? {
    } else if found.Some? {
      DeclaratorNameDeclares(d.children[found.value]);
      assert FirstFills(d.children, DeclaratorField, found.value);
    } else {
      NameAmongDeclares(d.children);
      assert !exists i: nat :: FirstFills(d.children, DeclaratorField, i);
    }
  }

  lemma {:induction false} NameAmongDeclares(nodes: seq<Node>)
    ensures forall x :: NameAmong(nodes) == Some(x) <==> DeclaresAmong(nodes, x)
    decreases nodes, 1
  {
    if nodes == [] {
    } else {
      DeclaratorNameDeclares(nodes[0]);
      NameAmongDeclares(nodes[1..]);
    }
  }

  lemma {:induction false} FoundIsHeld(d: Node)
    ensures forall x :: FindFunctionDeclarator(d) == Some(x) <==> HoldsFunction(d, x)
    decreases d, 0
  {
    FirstIsFieldIndex(d.children, DeclaratorField);
    var found := FieldIndex(d.children, DeclaratorField);
    if d.kind.FunctionDeclarator? {
    } else if found.Some? {
      FoundIsHeld(d.children[found.value]);
      assert FirstFills(d.children, DeclaratorField, found.value);
    } else {
      FoundAmongIsHeld(d.children);
      assert !exists i: nat :: FirstFills(d.children, DeclaratorField, i);
    }
  }

  lemma {:induction false} FoundAmongIsHeld(nodes: seq<Node>)
    ensures forall x :: FindAmong(nodes) == Some(x) <==> HoldsFunctionAmong(nodes, x)
    decreases nodes, 1
  {
    if nodes == [] {
    } else {
      FoundIsHeld(nodes[0]);
      FoundAmongIsHeld(nodes[1..]);
    }
  }
}
