/**
 Syntax trees as the extractors see them: a node has a kind, the field name it fills under its
 parent, a byte span and ordered children.
 */
module Syntax {
  import opened Graph

  /** The node kinds the modelled walks distinguish, over the C, C++ and Go grammars. */
  datatype Kind =
    // C and C++
    | FunctionDefinition | CompoundStatement | Declaration | TypeDefinition
    | ParameterDeclaration | OptionalParameterDeclaration | VariadicParameterDeclaration
    | FunctionDeclarator | PointerDeclarator | ReferenceDeclarator | InitDeclarator | ArrayDeclarator
    | AttributedDeclarator | ParenthesizedDeclarator
    | NamespaceDefinition | ClassSpecifier | StructSpecifier | UnionSpecifier | LambdaExpression
    | CallExpression | AssignmentExpression | FieldExpression | QualifiedIdentifier
    | Identifier | TypeIdentifier | FieldIdentifier
    // Go
    | FunctionDeclaration | MethodDeclaration | FuncLiteral | GoBlock
    | OtherKind(name: string)

  datatype Field =
    | NoField | BodyField | DeclaratorField | ParametersField | FunctionField | LeftField | NameField
    | MemberField | OtherField(name: string)

  datatype Node = Node(kind: Kind, field: Field, span: ByteSpan, children: seq<Node>)

  predicate Inside(inner: ByteSpan, outer: ByteSpan) {
    outer.start <= inner.start && inner.end <= outer.end
  }

  ghost predicate Ordered(nodes: seq<Node>, bound: ByteSpan) {
    && (forall i :: 0 <= i < |nodes| ==> Inside(nodes[i].span, bound))
    && (forall i, j :: 0 <= i < j < |nodes| ==> nodes[i].span.end <= nodes[j].span.start)
  }

  /** Children lie inside their parent, one after the other. A node may be empty. */
  ghost predicate WellFormed(n: Node) {
    && n.span.start <= n.span.end
    && Ordered(n.children, n.span)
    && forall c :: c in n.children ==> WellFormed(c)
  }

  ghost predicate AllWellFormed(nodes: seq<Node>, bound: ByteSpan) {
    Ordered(nodes, bound) && forall c :: c in nodes ==> WellFormed(c)
  }

  /** The index of the first child that fills `field`, as a lookup by field name finds it. */
  function FieldIndex(nodes: seq<Node>, field: Field): (i: Option<nat>)
    ensures i.Some? ==> i.value < |nodes| && nodes[i.value].field == field
    ensures i.Some? ==> forall j :: 0 <= j < i.value ==> nodes[j].field != field
    ensures i.None? ==> forall j :: 0 <= j < |nodes| ==> nodes[j].field != field
  {
    if nodes == [] then None
    else if nodes[0].field == field then Some(0)
    else
      var rest := FieldIndex(nodes[1..], field);
      assert forall j :: 0 < j < |nodes| ==> nodes[j] == nodes[1..][j - 1];
      if rest.None? then None else Some(rest.value + 1)
  }

  /** `i` is the first of the nodes that fill `field`. */
  ghost predicate FirstFills(nodes: seq<Node>, field: Field, i: nat) {
    i < |nodes| && nodes[i].field == field && forall j :: 0 <= j < i ==> nodes[j].field != field
  }

  lemma FirstIsFieldIndex(nodes: seq<Node>, field: Field)
    ensures forall i: nat :: FirstFills(nodes, field, i) <==> FieldIndex(nodes, field) == Some(i)
  {
    forall i: nat ensures FirstFills(nodes, field, i) <==> FieldIndex(nodes, field) == Some(i) {
      var found := FieldIndex(nodes, field);
      if FirstFills(nodes, field, i) {
        assert nodes[i].field == field;
      }
    }
  }

  function ChildByField(n: Node, field: Field): (c: Option<Node>)
    ensures c.Some? ==> c.value in n.children && c.value.field == field && c.value < n
  {
    var i := FieldIndex(n.children, field);
    if i.None? then None else Some(n.children[i.value])
  }

  lemma ChildFacts(n: Node, c: Node)
    requires WellFormed(n) && c in n.children
    ensures WellFormed(c) && Inside(c.span, n.span) && AllWellFormed(c.children, c.span)
  {
  }

  /** Children that fill different fields do not share a byte. */
  lemma FieldsApart(n: Node, a: Node, b: Node, byte: nat)
    requires WellFormed(n) && a in n.children && b in n.children && a.field != b.field
    ensures !(a.span.Contains(byte) && b.span.Contains(byte))
  {
    var i :| 0 <= i < |n.children| && n.children[i] == a;
    var j :| 0 <= j < |n.children| && n.children[j] == b;
    assert i < j ==> n.children[i].span.end <= n.children[j].span.start;
    assert j < i ==> n.children[j].span.end <= n.children[i].span.start;
  }

  function NodeText(n: Node, source: string): string {
    if n.span.start <= n.span.end <= |source| then source[n.span.start..n.span.end] else ""
  }

  /** `c` is the first child of `n` that fills `field`. */
  ghost predicate IsFirst(n: Node, field: Field, c: Node) {
    exists i: nat :: FirstFills(n.children, field, i) && n.children[i] == c
  }

  lemma ChildByFieldIsFirst(n: Node, field: Field)
    ensures forall c :: ChildByField(n, field) == Some(c) <==> IsFirst(n, field, c)
  {
    hide FirstFills, FieldIndex;
    FirstIsFieldIndex(n.children, field);
    var found := FieldIndex(n.children, field);
    if found.Some? {
      assert FirstFills(n.children, field, found.value);
    }
  }

  /** Number of nodes, for termination. */
  ghost function Size(n: Node): nat
    decreases n, 0
  {
    1 + SizeAll(n.children)
  }

  ghost function SizeAll(nodes: seq<Node>): nat
    decreases nodes, 1
  {
    if nodes == [] then 0 else Size(nodes[0]) + SizeAll(nodes[1..])
  }

  lemma {:induction false} SizeOfMember(nodes: seq<Node>, c: Node)
    requires c in nodes
    ensures Size(c) <= SizeAll(nodes)
  {
    if c == nodes[0] {
    } else {
      SizeOfMember(nodes[1..], c);
    }
  }
}
