/**
 The Read and Write collectors of C and C++ and the call query: three separate traversals that
 must not claim the same identifier twice.
 */
module References {
  import opened Graph
  import opened Syntax
  import opened Scopes

  const MIN_REF_LEN: nat := 3

  datatype Reference = Reference(name: string, byte: nat, role: RefRole)

  // ----- Positions claimed by other collectors

  /** A position in a tree: the `index`-th child of `parent`. */
  datatype Slot = Slot(parent: Node, index: nat) {
    predicate Valid() { index < |parent.children| }

    function Node(): Node
      requires Valid()
    {
      parent.children[index]
    }

    /** Whether looking up `field` in the parent finds this very child. */
    predicate Fills(field: Field) { FieldIndex(parent.children, field) == Some(index) }
  }

  /** The identifier at this position is the first child that fills `field` of a parent of one of the kinds. */
  ghost predicate Fills(s: Slot, kinds: set<Kind>, field: Field) {
    s.parent.kind in kinds && FirstFills(s.parent.children, field, s.index)
  }

  /** Positions of identifiers that are not reads, as each extractor decides them. */
  predicate IsNonReadPosition(lang: Language, slot: Slot) {
    if lang.Cpp? then
      match slot.parent.kind
      case CallExpression => slot.Fills(FunctionField)
      case QualifiedIdentifier => slot.Fills(NameField)
      case FunctionDeclarator => slot.Fills(DeclaratorField)
      case PointerDeclarator => slot.Fills(DeclaratorField)
      case ReferenceDeclarator => slot.Fills(DeclaratorField)
      case ArrayDeclarator => slot.Fills(DeclaratorField)
      case InitDeclarator => slot.Fills(DeclaratorField)
      case AttributedDeclarator => slot.Fills(DeclaratorField)
      case ParameterDeclaration => slot.Fills(DeclaratorField)
      case OptionalParameterDeclaration => slot.Fills(DeclaratorField)
      case VariadicParameterDeclaration => slot.Fills(DeclaratorField)
      case FieldExpression => slot.Fills(MemberField)
      case AssignmentExpression => slot.Fills(LeftField)
      case _ => false
    else
      match slot.parent.kind
      case CallExpression => slot.Fills(FunctionField)
      case PointerDeclarator => slot.Fills(DeclaratorField)
      case FunctionDeclarator => slot.Fills(DeclaratorField)
      case InitDeclarator => slot.Fills(DeclaratorField)
      case ArrayDeclarator => slot.Fills(DeclaratorField)
      case AttributedDeclarator => slot.Fills(DeclaratorField)
      case ParenthesizedDeclarator => true
      case Declaration => slot.Fills(DeclaratorField)
      case TypeDefinition => slot.Fills(DeclaratorField)
      case FunctionDefinition => slot.Fills(DeclaratorField)
      case ParameterDeclaration => slot.Fills(DeclaratorField)
      case AssignmentExpression => slot.Fills(LeftField)
      case _ => false
  }

  /** An identifier long enough to be referenced. */
  predicate Referable(n: Node) {
    n.kind.Identifier? && n.span.Len() >= MIN_REF_LEN
  }

  predicate IsReadSlot(lang: Language, slot: Slot) {
    slot.Valid() && Referable(slot.Node()) && !IsNonReadPosition(lang, slot)
  }

  predicate IsWriteSlot(slot: Slot) {
    slot.Valid() && Referable(slot.Node()) && slot.parent.kind.AssignmentExpression? && slot.Fills(LeftField)
  }

  /** What the call query captures: the identifier called, in C++ also the last name of a qualified callee. */
  predicate IsCalleeSlot(lang: Language, slot: Slot) {
    && slot.Valid() && Referable(slot.Node())
    && (|| (slot.parent.kind.CallExpression? && slot.Node().field == FunctionField)
        || (lang.Cpp? && slot.parent.kind.QualifiedIdentifier? && slot.parent.field == FunctionField
            && slot.Node().field == NameField))
  }

  // ----- The collectors as functions

  function RefAt(n: Node, source: string, role: RefRole): Reference {
    Reference(NodeText(n, source), n.span.start, role)
  }

  function Reads(lang: Language, n: Node, slot: Option<Slot>, source: string): seq<Reference>
    decreases n, 1, 0
  {
    if n.kind.Identifier? then
      if |NodeText(n, source)| >= MIN_REF_LEN && slot.Some? && !IsNonReadPosition(lang, slot.value)
      then [RefAt(n, source, Read)] else []
    else ReadsFrom(lang, n, 0, source)
  }

  function ReadsFrom(lang: Language, parent: Node, i: nat, source: string): seq<Reference>
    decreases parent, 0, |parent.children| - i
  {
    if i >= |parent.children| then [] else
      Reads(lang, parent.children[i], Some(Slot(parent, i)), source) + ReadsFrom(lang, parent, i + 1, source)
  }

  function WriteHere(n: Node, source: string): seq<Reference> {
    if !n.kind.AssignmentExpression? then [] else
      var left := ChildByField(n, LeftField);
      if left.Some? && left.value.kind.Identifier? && |NodeText(left.value, source)| >= MIN_REF_LEN
      then [RefAt(left.value, source, Write)] else []
  }

  function Writes(n: Node, source: string): seq<Reference>
    decreases n, 1
  {
    WriteHere(n, source) + WritesAll(n.children, source)
  }

  function WritesAll(nodes: seq<Node>, source: string): seq<Reference>
    decreases nodes, 2
  {
    if nodes == [] then [] else Writes(nodes[0], source) + WritesAll(nodes[1..], source)
  }

  // ----- The collectors as the extractors run them

  class ReferenceVector {
    var out: seq<Reference>

    constructor ()
      ensures out == []
    {
      out := [];
    }

    method CollectReads(lang: Language, n: Node, slot: Option<Slot>, source: string)
      modifies this
      ensures out == old(out) + Reads(lang, n, slot, source)
      decreases n, 1
    {
      if n.kind.Identifier? {
        if |NodeText(n, source)| >= MIN_REF_LEN && slot.Some? && !IsNonReadPosition(lang, slot.value) {
          out := out + [RefAt(n, source, Read)];
        }
        return;
      }
      for i := 0 to |n.children|
        invariant old(out) + Reads(lang, n, slot, source) == out + ReadsFrom(lang, n, i, source)
      {
        ghost var before, rest := out, ReadsFrom(lang, n, i + 1, source);
        CollectReads(lang, n.children[i], Some(Slot(n, i)), source);
        assert before + (Reads(lang, n.children[i], Some(Slot(n, i)), source) + rest) == out + rest;
      }
    }

    method CollectWrites(n: Node, source: string)
      modifies this
      ensures out == old(out) + Writes(n, source)
      decreases n, 1
    {
      hide WriteHere;
      CollectWriteHere(n, source);
      ghost var start := out;
      assert start == old(out) + WriteHere(n, source);
      assert n.children[0..] == n.children;
      for i := 0 to |n.children|
        invariant start + WritesAll(n.children, source) == out + WritesAll(n.children[i..], source)
      {
        assert n.children[i..][0] == n.children[i] && n.children[i..][1..] == n.children[i + 1..];
        ghost var before, rest := out, WritesAll(n.children[i + 1..], source);
        CollectWrites(n.children[i], source);
        assert before + (Writes(n.children[i], source) + rest) == out + rest;
      }
      assert n.children[|n.children|..] == [] && out + [] == out;
      assert old(out) + (WriteHere(n, source) + WritesAll(n.children, source)) == out;
    }

    method CollectWriteHere(n: Node, source: string)
      modifies this
      ensures out == old(out) + WriteHere(n, source)
    {
      if n.kind.AssignmentExpression? {
        var left := ChildByField(n, LeftField);
        if left.Some? && left.value.kind.Identifier? {
          if |NodeText(left.value, source)| >= MIN_REF_LEN {
            out := out + [RefAt(left.value, source, Write)];
          }
        }
      }
    }
  }

  // ----- Trees of the two grammars

  ghost predicate OneChildFills(n: Node, field: Field) {
    forall i, j :: 0 <= i < j < |n.children| && n.children[i].field == field ==> n.children[j].field != field
  }

  /** Identifiers are leaves, a call has one function and a qualified name has one last part. */
  ghost predicate Grammatical(n: Node) {
    && (n.kind.Identifier? ==> n.children == [])
    && (n.kind.CallExpression? ==> OneChildFills(n, FunctionField))
    && (n.kind.QualifiedIdentifier? ==> OneChildFills(n, NameField))
    && forall c :: c in n.children ==> Grammatical(c)
  }

  /** `slot` is a position in the tree of `n`. */
  ghost predicate Occurs(n: Node, slot: Slot) {
    (slot.parent == n && slot.Valid()) || exists c :: c in n.children && Occurs(c, slot)
  }

  lemma {:induction false} OccursInside(n: Node, slot: Slot)
    requires WellFormed(n) && Occurs(n, slot)
    ensures slot.Valid() && WellFormed(slot.parent) && Inside(slot.parent.span, n.span)
    ensures Inside(slot.Node().span, n.span)
  {
    if slot.parent == n && slot.Valid() {
    } else {
      var c :| c in n.children && Occurs(c, slot);
      OccursInside(c, slot);
    }
  }

  lemma {:induction false} OccursGrammatical(n: Node, slot: Slot)
    requires Grammatical(n) && Occurs(n, slot)
    ensures slot.Valid() && Grammatical(slot.parent)
  {
    if slot.parent == n && slot.Valid() {
    } else {
      var c :| c in n.children && Occurs(c, slot);
      OccursGrammatical(c, slot);
    }
  }

  lemma SameChild(n: Node, i: nat, j: nat, byte: nat)
    requires WellFormed(n) && i < |n.children| && j < |n.children|
    requires n.children[i].span.Contains(byte) && n.children[j].span.Contains(byte)
    ensures i == j
  {
  }

  lemma LeafHasNoSlots(n: Node, slot: Slot)
    requires n.children == []
    ensures !Occurs(n, slot)
  {
  }

  /** The child through which a position is reached, and how. */
  lemma ChildOf(n: Node, slot: Slot) returns (i: nat)
    requires WellFormed(n) && Occurs(n, slot) && slot.Valid()
    ensures i < |n.children| && Inside(slot.Node().span, n.children[i].span)
    ensures slot == Slot(n, i) || Occurs(n.children[i], slot)
  {
    if slot.parent == n {
      i := slot.index;
    } else {
      var c :| c in n.children && Occurs(c, slot);
      i :| 0 <= i < |n.children| && n.children[i] == c;
      OccursInside(c, slot);
    }
  }

  /** Two referable identifiers of a tree that start at the same byte are the same position. */
  lemma {:induction false} ByteTellsSlot(n: Node, a: Slot, b: Slot)
    requires WellFormed(n) && Grammatical(n) && Occurs(n, a) && Occurs(n, b)
    requires a.Valid() && b.Valid() && Referable(a.Node()) && Referable(b.Node())
    requires a.Node().span.start == b.Node().span.start
    ensures a == b
  {
    var i := ChildOf(n, a);
    var j := ChildOf(n, b);
    SameChild(n, i, j, a.Node().span.start);
    var c := n.children[i];
    if c.kind.Identifier? {
      assert c in n.children && Grammatical(c);
      LeafHasNoSlots(c, a);
      LeafHasNoSlots(c, b);
    } else {
      ByteTellsSlot(c, a, b);
    }
  }

  /** No read position is a write position, and no callee is either. */
  lemma PositionsApart(lang: Language, slot: Slot)
    requires slot.Valid() && Grammatical(slot.parent) && !lang.Go?
    ensures !(IsReadSlot(lang, slot) && IsWriteSlot(slot))
    ensures IsCalleeSlot(lang, slot) ==> !IsReadSlot(lang, slot) && !IsWriteSlot(slot)
  {
    if slot.parent.kind.CallExpression? && slot.Node().field == FunctionField {
      assert FieldIndex(slot.parent.children, FunctionField) == Some(slot.index);
    }
    if slot.parent.kind.QualifiedIdentifier? && slot.Node().field == NameField {
      assert FieldIndex(slot.parent.children, NameField) == Some(slot.index);
    }
  }

  // ----- What the collectors emit

  ghost predicate EmittedAt(refs: seq<Reference>, byte: nat) {
    exists r :: r in refs && r.byte == byte
  }

  lemma TextLength(n: Node, source: string)
    requires n.span.start <= n.span.end <= |source|
    ensures |NodeText(n, source)| == n.span.Len()
  {
  }

  /** Bytes strictly increase and stay within a span. */
  ghost predicate Ascending(refs: seq<Reference>, from: nat, to: nat) {
    && (forall i :: 0 <= i < |refs| ==> from <= refs[i].byte < to)
    && (forall i, j :: 0 <= i < j < |refs| ==> refs[i].byte < refs[j].byte)
  }

  /** The position of every emitted read, and its text. */
  lemma {:induction false} ReadComesFrom(lang: Language, n: Node, slot: Option<Slot>, source: string, r: Reference)
    returns (s: Slot)
    requires WellFormed(n) && n.span.end <= |source|
    requires slot.Some? ==> slot.value.Valid() && slot.value.Node() == n
    requires r in Reads(lang, n, slot, source)
    ensures r.role == Read && IsReadSlot(lang, s) && r == RefAt(s.Node(), source, Read)
    ensures slot == Some(s) || Occurs(n, s)
    decreases n, 1, 0
  {
    if n.kind.Identifier? {
      TextLength(n, source);
      s := slot.value;
    } else {
      s := ReadFromComesFrom(lang, n, 0, source, r);
    }
  }

  lemma {:induction false} ReadFromComesFrom(lang: Language, parent: Node, i: nat, source: string, r: Reference)
    returns (s: Slot)
    requires WellFormed(parent) && parent.span.end <= |source| && i <= |parent.children|
    requires r in ReadsFrom(lang, parent, i, source)
    ensures r.role == Read && IsReadSlot(lang, s) && r == RefAt(s.Node(), source, Read) && Occurs(parent, s)
    decreases parent, 0, |parent.children| - i
  {
    var c := parent.children[i];
    if r in Reads(lang, c, Some(Slot(parent, i)), source) {
      s := ReadComesFrom(lang, c, Some(Slot(parent, i)), source, r);
      assert s == Slot(parent, i) || Occurs(c, s);
    } else {
      s := ReadFromComesFrom(lang, parent, i + 1, source, r);
    }
  }

  /** Every read position below a node is emitted. */
  lemma {:induction false} ReadSlotEmitted(lang: Language, n: Node, slot: Option<Slot>, source: string, s: Slot)
    requires WellFormed(n) && Grammatical(n) && n.span.end <= |source|
    requires IsReadSlot(lang, s) && Occurs(n, s)
    ensures RefAt(s.Node(), source, Read) in Reads(lang, n, slot, source)
    decreases n, 1, 0
  {
    var i := ChildOf(n, s);
    ReadSlotEmittedFrom(lang, n, 0, source, s, i);
  }

  lemma {:induction false} ReadSlotEmittedFrom(lang: Language, parent: Node, i: nat, source: string, s: Slot, at: nat)
    requires WellFormed(parent) && Grammatical(parent) && parent.span.end <= |source| && i <= at < |parent.children|
    requires IsReadSlot(lang, s) && (s == Slot(parent, at) || Occurs(parent.children[at], s))
    ensures RefAt(s.Node(), source, Read) in ReadsFrom(lang, parent, i, source)
    decreases parent, 0, |parent.children| - i
  {
    var c := parent.children[i];
    if i < at {
      ReadSlotEmittedFrom(lang, parent, i + 1, source, s, at);
    } else if s == Slot(parent, at) {
      TextLength(c, source);
    } else {
      ReadSlotEmitted(lang, c, Some(Slot(parent, i)), source, s);
    }
  }

  lemma AscendingJoin(a: seq<Reference>, b: seq<Reference>, start: nat, mid: nat, to: nat, from: nat)
    requires Ascending(a, start, mid) && Ascending(b, mid, to) && from <= start <= mid <= to
    ensures Ascending(a + b, from, to)
  {
    var all := a + b;
    forall i | 0 <= i < |all| ensures from <= all[i].byte < to && (i < |a| <==> all[i].byte < mid) {
      assert all[i] == if i < |a| then a[i] else b[i - |a|];
    }
    forall i, j | 0 <= i < j < |all| ensures all[i].byte < all[j].byte {
      if j < |a| {
        assert all[i] == a[i] && all[j] == a[j];
      } else if |a| <= i {
        assert all[i] == b[i - |a|] && all[j] == b[j - |a|];
      }
    }
  }

  /** Reads come in strictly increasing byte order. */
  lemma {:induction false} ReadsAscend(lang: Language, n: Node, slot: Option<Slot>, source: string)
    requires WellFormed(n) && n.span.end <= |source|
    ensures Ascending(Reads(lang, n, slot, source), n.span.start, n.span.end)
    decreases n, 1, 0
  {
    if n.kind.Identifier? {
      TextLength(n, source);
    } else {
      ReadsFromAscend(lang, n, 0, source, n.span.start);
    }
  }

  lemma {:induction false} ReadsFromAscend(lang: Language, parent: Node, i: nat, source: string, from: nat)
    requires WellFormed(parent) && parent.span.end <= |source| && i <= |parent.children| && from <= parent.span.end
    requires forall j :: i <= j < |parent.children| ==> from <= parent.children[j].span.start
    ensures Ascending(ReadsFrom(lang, parent, i, source), from, parent.span.end)
    decreases parent, 0, |parent.children| - i
  {
    if i == |parent.children| {
    } else {
      var c := parent.children[i];
      ReadsAscend(lang, c, Some(Slot(parent, i)), source);
      ReadsFromAscend(lang, parent, i + 1, source, c.span.end);
      AscendingJoin(Reads(lang, c, Some(Slot(parent, i)), source), ReadsFrom(lang, parent, i + 1, source),
                    c.span.start, c.span.end, parent.span.end, from);
    }
  }

  /** An identifier of at least three bytes. */
  ghost predicate IsLongIdentifier(s: Slot) {
    && s.index < |s.parent.children| && s.parent.children[s.index].kind == Identifier
    && s.parent.children[s.index].span.start + 3 <= s.parent.children[s.index].span.end
  }

  /**
   A read: an identifier that is not called, not declared and not assigned. In C++ the names of declarations
   without a wrapper count as reads, and the last part of a qualified name does not.
   */
  ghost predicate IsRead(lang: Language, s: Slot) {
    && IsLongIdentifier(s)
    && !Fills(s, {CallExpression}, FunctionField) && !Fills(s, {AssignmentExpression}, LeftField)
    && !Fills(s, {FunctionDeclarator, PointerDeclarator, ArrayDeclarator, InitDeclarator, AttributedDeclarator,
                  ParameterDeclaration}, DeclaratorField)
    && if lang == Cpp then
         && !Fills(s, {ReferenceDeclarator, OptionalParameterDeclaration, VariadicParameterDeclaration},
                   DeclaratorField)
         && !Fills(s, {QualifiedIdentifier}, NameField) && !Fills(s, {FieldExpression}, MemberField)
       else
         && !Fills(s, {Declaration, TypeDefinition, FunctionDefinition}, DeclaratorField)
         && s.parent.kind != ParenthesizedDeclarator
  }

  /** A write: an identifier on the left of an assignment. */
  ghost predicate IsWrite(s: Slot) {
    IsLongIdentifier(s) && Fills(s, {AssignmentExpression}, LeftField)
  }

  /** The reference to the identifier at a position: its text, its first byte and a role. */
  ghost predicate RefersTo(r: Reference, s: Slot, source: string, role: RefRole) {
    && s.index < |s.parent.children|
    && var span := s.parent.children[s.index].span;
    && r.role == role && r.byte == span.start
    && span.start <= span.end <= |source| && r.name == source[span.start..span.end]
  }

  lemma FillsMeans(s: Slot, field: Field)
    ensures s.Fills(field) <==> FirstFills(s.parent.children, field, s.index)
  {
    hide FirstFills, FieldIndex;
    FirstIsFieldIndex(s.parent.children, field);
  }

  /** The positions that are not read, in C++. */
  lemma CppPositionMeans(s: Slot)
    ensures IsNonReadPosition(Cpp, s) <==>
            || Fills(s, {CallExpression}, FunctionField) || Fills(s, {AssignmentExpression}, LeftField)
            || Fills(s, {FunctionDeclarator, PointerDeclarator, ArrayDeclarator, InitDeclarator, AttributedDeclarator,
                         ParameterDeclaration}, DeclaratorField)
            || Fills(s, {ReferenceDeclarator, OptionalParameterDeclaration, VariadicParameterDeclaration},
                     DeclaratorField)
            || Fills(s, {QualifiedIdentifier}, NameField) || Fills(s, {FieldExpression}, MemberField)
  {
    hide FirstFills, Slot.Fills;
    FillsMeans(s, FunctionField);
    FillsMeans(s, LeftField);
    FillsMeans(s, DeclaratorField);
    FillsMeans(s, NameField);
    FillsMeans(s, MemberField);
  }

  /** The positions that are not read, in C. */
  lemma CPositionMeans(lang: Language, s: Slot)
    requires lang != Cpp
    ensures IsNonReadPosition(lang, s) <==>
            || Fills(s, {CallExpression}, FunctionField) || Fills(s, {AssignmentExpression}, LeftField)
            || Fills(s, {FunctionDeclarator, PointerDeclarator, ArrayDeclarator, InitDeclarator, AttributedDeclarator,
                         ParameterDeclaration}, DeclaratorField)
            || Fills(s, {Declaration, TypeDefinition, FunctionDefinition}, DeclaratorField)
            || s.parent.kind == ParenthesizedDeclarator
  {
    hide FirstFills, Slot.Fills;
    FillsMeans(s, FunctionField);
    FillsMeans(s, LeftField);
    FillsMeans(s, DeclaratorField);
  }

  lemma LongMeans(s: Slot)
    ensures IsLongIdentifier(s) <==> s.Valid() && Referable(s.Node())
  {
  }

  lemma SlotsMean(lang: Language, s: Slot)
    ensures IsReadSlot(lang, s) <==> IsRead(lang, s)
    ensures IsWriteSlot(s) <==> IsWrite(s)
  {
    hide FirstFills, Slot.Fills, IsNonReadPosition;
    FillsMeans(s, LeftField);
    if lang == Cpp {
      CppPositionMeans(s);
    } else {
      CPositionMeans(lang, s);
    }
    LongMeans(s);
  }

  lemma SpanOrdered(n: Node)
    requires WellFormed(n)
    ensures n.span.start <= n.span.end
  {
  }

  lemma SlotRefersTo(root: Node, s: Slot, source: string, role: RefRole)
    requires WellFormed(root) && root.span.end <= |source| && Occurs(root, s)
    ensures s.index < |s.parent.children| && RefersTo(RefAt(s.Node(), source, role), s, source, role)
  {
    hide WellFormed;
    OccursInside(root, s);
    ChildFacts(s.parent, s.Node());
    SpanOrdered(s.Node());
  }

  /** The bytes at which something is read. */
  lemma ReadBytes(lang: Language, root: Node, source: string)
    requires WellFormed(root) && Grammatical(root) && root.span.end <= |source|
    ensures forall byte: nat :: EmittedAt(Reads(lang, root, None, source), byte) <==>
              exists s :: Occurs(root, s) && IsReadSlot(lang, s) && s.Node().span.start == byte
  {
    hide WellFormed, Grammatical, Reads, IsNonReadPosition, Referable;
    var refs := Reads(lang, root, None, source);
    forall byte: nat
      ensures EmittedAt(refs, byte) <==>
              exists s :: Occurs(root, s) && IsReadSlot(lang, s) && s.Node().span.start == byte
    {
      if r :| r in refs && r.byte == byte {
        var s := ReadComesFrom(lang, root, None, source, r);
      }
      if s :| Occurs(root, s) && IsReadSlot(lang, s) && s.Node().span.start == byte {
        ReadSlotEmitted(lang, root, None, source, s);
      }
    }
  }

  /**
   The Read collector emits a reference exactly for each identifier of at least three bytes that is read, each
   once and in increasing byte order.
   */
  lemma ReadsAreExact(lang: Language, root: Node, source: string)
    requires WellFormed(root) && Grammatical(root) && root.span.end <= |source|
    ensures var refs := Reads(lang, root, None, source);
            && (forall r :: r in refs <==>
                  exists s :: Occurs(root, s) && IsRead(lang, s) && RefersTo(r, s, source, Read))
            && (forall i, j :: 0 <= i < j < |refs| ==> refs[i].byte < refs[j].byte)
  {
    hide WellFormed, Grammatical, Reads, IsNonReadPosition, IsRead, Referable;
    var refs := Reads(lang, root, None, source);
    ReadsAscend(lang, root, None, source);
    forall r ensures r in refs <==> exists s :: Occurs(root, s) && IsRead(lang, s) && RefersTo(r, s, source, Read) {
      if r in refs {
        var s := ReadComesFrom(lang, root, None, source, r);
        SlotsMean(lang, s);
        SlotRefersTo(root, s, source, Read);
      }
      if s :| Occurs(root, s) && IsRead(lang, s) && RefersTo(r, s, source, Read) {
        SlotsMean(lang, s);
        SlotRefersTo(root, s, source, Read);
        ReadSlotEmitted(lang, root, None, source, s);
      }
    }
  }

  lemma {:induction false} WriteComesFrom(n: Node, source: string, r: Reference) returns (s: Slot)
    requires WellFormed(n) && n.span.end <= |source| && r in Writes(n, source)
    ensures r.role == Write && IsWriteSlot(s) && r == RefAt(s.Node(), source, Write) && Occurs(n, s)
    decreases n, 1
  {
    if r in WriteHere(n, source) {
      var i := FieldIndex(n.children, LeftField).value;
      TextLength(n.children[i], source);
      s := Slot(n, i);
    } else {
      s := WriteAmongComesFrom(n.children, n, source, r);
    }
  }

  lemma {:induction false} WriteAmongComesFrom(nodes: seq<Node>, n: Node, source: string, r: Reference)
    returns (s: Slot)
    requires forall c :: c in nodes ==> c in n.children && WellFormed(c) && c.span.end <= |source|
    requires r in WritesAll(nodes, source)
    ensures r.role == Write && IsWriteSlot(s) && r == RefAt(s.Node(), source, Write) && Occurs(n, s)
    decreases nodes, 2
  {
    if r in Writes(nodes[0], source) {
      s := WriteComesFrom(nodes[0], source, r);
      assert nodes[0] in n.children && Occurs(nodes[0], s);
    } else {
      s := WriteAmongComesFrom(nodes[1..], n, source, r);
    }
  }

  lemma {:induction false} WritesOfMember(nodes: seq<Node>, c: Node, source: string, r: Reference)
    requires c in nodes && r in Writes(c, source)
    ensures r in WritesAll(nodes, source)
  {
    if c == nodes[0] {
    } else {
      WritesOfMember(nodes[1..], c, source, r);
    }
  }

  lemma {:induction false} WriteSlotEmitted(n: Node, source: string, s: Slot)
    requires WellFormed(n) && n.span.end <= |source| && IsWriteSlot(s) && Occurs(n, s)
    ensures RefAt(s.Node(), source, Write) in Writes(n, source)
    decreases n, 1
  {
    if s.parent == n {
      ChildFacts(n, s.Node());
      TextLength(s.Node(), source);
    } else {
      var c :| c in n.children && Occurs(c, s);
      ChildFacts(n, c);
      WriteSlotEmitted(c, source, s);
      WritesOfMember(n.children, c, source, RefAt(s.Node(), source, Write));
    }
  }

  ghost predicate DistinctBytes(refs: seq<Reference>, span: ByteSpan) {
    && (forall i :: 0 <= i < |refs| ==> span.Contains(refs[i].byte))
    && (forall i, j :: 0 <= i < j < |refs| ==> refs[i].byte != refs[j].byte)
  }

  lemma LeafWritesNothing(n: Node, source: string)
    ensures n.kind.Identifier? && n.children == [] ==> Writes(n, source) == []
  {
  }

  /** A write below the children of an assignment is not its own left side, which is a leaf. */
  lemma {:induction false} DeeperWrite(nodes: seq<Node>, n: Node, source: string, r: Reference, i: nat)
    requires WellFormed(n) && Grammatical(n) && n.span.end <= |source| && i < |n.children|
    requires n.children[i].kind.Identifier? && Referable(n.children[i])
    requires forall c :: c in nodes ==> c in n.children
    requires r in WritesAll(nodes, source)
    ensures r.byte != n.children[i].span.start
    decreases nodes
  {
    hide NodeText, Writes;
    var c := nodes[0];
    if r in Writes(c, source) {
      assert Grammatical(c);
      ChildFacts(n, c);
      LeafWritesNothing(c, source);
      var s := WriteComesFrom(c, source, r);
      var k :| 0 <= k < |n.children| && n.children[k] == c;
      OccursInside(c, s);
      assert i < k ==> n.children[i].span.end <= c.span.start;
      assert k < i ==> c.span.end <= n.children[i].span.start;
    } else {
      DeeperWrite(nodes[1..], n, source, r, i);
    }
  }

  lemma DistinctJoin(a: seq<Reference>, b: seq<Reference>, first: ByteSpan, rest: ByteSpan, span: ByteSpan)
    requires DistinctBytes(a, first) && DistinctBytes(b, rest) && first.end <= rest.start
    requires Inside(first, span) && Inside(rest, span)
    ensures DistinctBytes(a + b, span)
  {
    var all := a + b;
    forall i | 0 <= i < |all| ensures span.Contains(all[i].byte) && (i < |a| <==> all[i].byte < rest.start) {
      assert all[i] == if i < |a| then a[i] else b[i - |a|];
    }
    forall i, j | 0 <= i < j < |all| ensures all[i].byte != all[j].byte {
      if j < |a| {
        assert all[i] == a[i] && all[j] == a[j];
      } else if |a| <= i {
        assert all[i] == b[i - |a|] && all[j] == b[j - |a|];
      }
    }
  }

  /** No identifier is emitted as a write twice. */
  lemma {:induction false} WritesDistinct(n: Node, source: string)
    requires WellFormed(n) && Grammatical(n) && n.span.end <= |source|
    ensures DistinctBytes(Writes(n, source), n.span)
    decreases n, 1
  {
    WritesAmongDistinct(n.children, n.span, source);
    var here, below := WriteHere(n, source), WritesAll(n.children, source);
    if here != [] {
      var left := ChildByField(n, LeftField).value;
      TextLength(left, source);
      forall r | r in below ensures r.byte != left.span.start {
        DeeperWrite(n.children, n, source, r, FieldIndex(n.children, LeftField).value);
      }
    }
  }

  lemma {:induction false} WritesAmongDistinct(nodes: seq<Node>, span: ByteSpan, source: string)
    requires AllWellFormed(nodes, span) && span.start <= span.end <= |source|
    requires forall c :: c in nodes ==> Grammatical(c)
    ensures DistinctBytes(WritesAll(nodes, source), span)
    decreases nodes, 2
  {
    if nodes == [] {
    } else {
      WritesDistinct(nodes[0], source);
      var rest := ByteSpan(nodes[0].span.end, span.end);
      WritesAmongDistinct(nodes[1..], rest, source);
      DistinctJoin(Writes(nodes[0], source), WritesAll(nodes[1..], source), nodes[0].span, rest, span);
    }
  }

  /** The bytes at which something is written. */
  lemma WriteBytes(root: Node, source: string)
    requires WellFormed(root) && Grammatical(root) && root.span.end <= |source|
    ensures forall byte: nat :: EmittedAt(Writes(root, source), byte) <==>
              exists s :: Occurs(root, s) && IsWriteSlot(s) && s.Node().span.start == byte
  {
    hide WellFormed, Grammatical, Writes, Referable;
    var refs := Writes(root, source);
    forall byte: nat
      ensures EmittedAt(refs, byte) <==> exists s :: Occurs(root, s) && IsWriteSlot(s) && s.Node().span.start == byte
    {
      if r :| r in refs && r.byte == byte {
        var s := WriteComesFrom(root, source, r);
      }
      if s :| Occurs(root, s) && IsWriteSlot(s) && s.Node().span.start == byte {
        WriteSlotEmitted(root, source, s);
      }
    }
  }

  /** The Write collector emits exactly the identifiers on the left of an assignment, each once. */
  lemma WritesAreExact(root: Node, source: string)
    requires WellFormed(root) && Grammatical(root) && root.span.end <= |source|
    ensures var refs := Writes(root, source);
            && (forall r :: r in refs <==> exists s :: Occurs(root, s) && IsWrite(s) && RefersTo(r, s, source, Write))
            && (forall i, j :: 0 <= i < j < |refs| ==> refs[i].byte != refs[j].byte)
  {
    hide WellFormed, Grammatical, Writes, IsWrite, Referable;
    var refs := Writes(root, source);
    WritesDistinct(root, source);
    forall r ensures r in refs <==> exists s :: Occurs(root, s) && IsWrite(s) && RefersTo(r, s, source, Write) {
      if r in refs {
        var s := WriteComesFrom(root, source, r);
        SlotsMean(C, s);
        SlotRefersTo(root, s, source, Write);
      }
      if s :| Occurs(root, s) && IsWrite(s) && RefersTo(r, s, source, Write) {
        SlotsMean(C, s);
        SlotRefersTo(root, s, source, Write);
        WriteSlotEmitted(root, source, s);
      }
    }
  }

  /** No identifier is emitted both as a Read and as a Write, and no callee as either. */
  lemma RolesAreDisjoint(lang: Language, root: Node, source: string, byte: nat)
    requires WellFormed(root) && Grammatical(root) && root.span.end <= |source| && !lang.Go?
    ensures !(EmittedAt(Reads(lang, root, None, source), byte) && EmittedAt(Writes(root, source), byte))
    ensures (exists s :: Occurs(root, s) && IsCalleeSlot(lang, s) && s.Node().span.start == byte) ==>
              !EmittedAt(Reads(lang, root, None, source), byte) && !EmittedAt(Writes(root, source), byte)
  {
    hide WellFormed, Grammatical, Reads, Writes, IsNonReadPosition;
    ReadBytes(lang, root, source);
    WriteBytes(root, source);
    forall a: Slot, b: Slot
      | Occurs(root, a) && Occurs(root, b) && a.Valid() && b.Valid() && Referable(a.Node()) && Referable(b.Node())
        && a.Node().span.start == b.Node().span.start
      ensures a == b
    {
      ByteTellsSlot(root, a, b);
    }
    forall s: Slot | Occurs(root, s)
      ensures !(IsReadSlot(lang, s) && IsWriteSlot(s))
      ensures IsCalleeSlot(lang, s) ==> !IsReadSlot(lang, s) && !IsWriteSlot(s)
    {
      OccursGrammatical(root, s);
      PositionsApart(lang, s);
    }
  }

  // ----- Declared names

  /**
   The name of a parameter, or of any declarator in a pointer, function, array, initializer or attribute
   declarator, is never a Read, in C and in C++.
   */
  lemma DeclaratorNamesAreNoReads(lang: Language, root: Node, source: string, s: Slot)
    requires WellFormed(root) && Grammatical(root) && root.span.end <= |source| && lang != Go
    requires Occurs(root, s) && IsLongIdentifier(s)
    requires Fills(s, {ParameterDeclaration, PointerDeclarator, FunctionDeclarator, ArrayDeclarator, InitDeclarator,
                       AttributedDeclarator}, DeclaratorField)
    ensures !EmittedAt(Reads(lang, root, None, source), s.parent.children[s.index].span.start)
  {
    hide WellFormed, Grammatical, Reads, IsNonReadPosition, FirstFills;
    ReadBytes(lang, root, source);
    forall t: Slot | Occurs(root, t) && IsReadSlot(lang, t) && t.Node().span.start == s.Node().span.start
      ensures false
    {
      ByteTellsSlot(root, t, s);
      SlotsMean(lang, t);
    }
  }

  /**
   A name declared directly by a C declaration is meant never to be a Read. It is one exactly when
   an earlier declarator stands in the same declaration, because only the first is looked up.
   */
  lemma BareDeclaratorIsRead(root: Node, source: string, s: Slot)
    requires WellFormed(root) && Grammatical(root) && root.span.end <= |source|
    requires Occurs(root, s) && s.Valid() && Referable(s.Node())
    requires s.parent.kind.Declaration? || s.parent.kind.TypeDefinition?
    requires s.Node().field == DeclaratorField
    ensures EmittedAt(Reads(C, root, None, source), s.Node().span.start) <==>
            exists j :: 0 <= j < s.index && s.parent.children[j].field == DeclaratorField
    ensures EmittedAt(Reads(Cpp, root, None, source), s.Node().span.start)
  {
    hide WellFormed, Grammatical, Reads, Referable;
    ReadBytes(C, root, source);
    ReadBytes(Cpp, root, source);
    forall t: Slot | Occurs(root, t) && t.Valid() && Referable(t.Node()) && t.Node().span.start == s.Node().span.start
      ensures t == s
    {
      ByteTellsSlot(root, t, s);
    }
    assert IsReadSlot(Cpp, s);
    assert IsReadSlot(C, s) <==> !s.Fills(DeclaratorField);
  }

  /** `int aaa,bbb;` */
  function TwoDeclarators(): Node {
    Node(Declaration, NoField, ByteSpan(0, 12),
         [Node(Identifier, DeclaratorField, ByteSpan(4, 7), []),
          Node(Identifier, DeclaratorField, ByteSpan(8, 11), [])])
  }

  /** The second name declared is reported as a Read in C; in C++ both are. */
  lemma SecondDeclaratorIsRead(source: string)
    requires source == "int aaa,bbb;"
    ensures Reads(C, TwoDeclarators(), None, source) == [Reference("bbb", 8, Read)]
    ensures Reads(Cpp, TwoDeclarators(), None, source) == [Reference("aaa", 4, Read), Reference("bbb", 8, Read)]
  {
    var n := TwoDeclarators();
    assert NodeText(n.children[0], source) == "aaa" && NodeText(n.children[1], source) == "bbb";
    assert FieldIndex(n.children, DeclaratorField) == Some(0);
    assert ReadsFrom(C, n, 2, source) == [] && ReadsFrom(Cpp, n, 2, source) == [];
    assert ReadsFrom(C, n, 1, source) == Reads(C, n.children[1], Some(Slot(n, 1)), source) + [];
    assert ReadsFrom(Cpp, n, 1, source) == Reads(Cpp, n.children[1], Some(Slot(n, 1)), source) + [];
  }
}
