/**
 Attaching references to scopes: each reference is given the innermost scope around its byte, in place.
 */
module Attach {
  import opened Graph
  import opened Syntax
  import opened Scopes
  import opened Laminar
  import opened References

  /** A reference with the scope it is attached to, if any. */
  datatype ScopedReference = ScopedReference(reference: Reference, scope: Option<nat>)

  /** References as the collectors push them, still without a scope. */
  function Unattached(references: seq<Reference>): (scoped: seq<ScopedReference>)
    ensures |scoped| == |references|
  {
    seq(|references|, i requires 0 <= i < |references| => ScopedReference(references[i], None))
  }

  function Attached(reference: Reference, scopes: seq<Scope>): ScopedReference {
    ScopedReference(reference, InnermostScope(reference.byte, scopes))
  }

  function AllAttached(references: seq<Reference>, scopes: seq<Scope>): (scoped: seq<ScopedReference>)
    ensures |scoped| == |references|
    ensures forall i :: 0 <= i < |references| ==> scoped[i] == Attached(references[i], scopes)
  {
    seq(|references|, i requires 0 <= i < |references| => Attached(references[i], scopes))
  }

  method AttachReferenceScopes(refs: array<ScopedReference>, scopes: seq<Scope>)
    modifies refs
    ensures forall i :: 0 <= i < refs.Length ==> refs[i] == Attached(old(refs[i]).reference, scopes)
  {
    for i := 0 to refs.Length
      invariant forall j :: 0 <= j < i ==> refs[j] == Attached(old(refs[j]).reference, scopes)
      invariant forall j :: i <= j < refs.Length ==> refs[j] == old(refs[j])
    {
      refs[i] := refs[i].(scope := InnermostScope(refs[i].reference.byte, scopes));
    }
  }

  /** The Reads and Writes of a file, in the order in which they are collected. */
  function ReadsAndWrites(lang: Language, root: Node, source: string): seq<Reference> {
    Reads(lang, root, None, source) + Writes(root, source)
  }

  /** The references of a file with their scopes, as extraction collects and then attaches them. */
  method CollectAttached(lang: Language, root: Node, source: string, scopes: seq<Scope>)
    returns (refs: array<ScopedReference>)
    ensures fresh(refs) && refs[..] == AllAttached(ReadsAndWrites(lang, root, source), scopes)
  {
    hide Reads, Writes, InnermostScope;
    var out := new ReferenceVector();
    out.CollectReads(lang, root, None, source);
    out.CollectWrites(root, source);
    var unattached := Unattached(out.out);
    refs := new ScopedReference[|unattached|](i requires 0 <= i < |unattached| => unattached[i]);
    AttachReferenceScopes(refs, scopes);
  }

  lemma ReadLiesInside(lang: Language, root: Node, source: string, r: Reference)
    requires WellFormed(root) && root.span.end <= |source| && r in Reads(lang, root, None, source)
    ensures root.span.Contains(r.byte)
  {
    ReadsAscend(lang, root, None, source);
  }

  lemma WriteLiesInside(root: Node, source: string, r: Reference)
    requires WellFormed(root) && root.span.end <= |source| && r in Writes(root, source)
    ensures root.span.Contains(r.byte)
  {
    var s := WriteComesFrom(root, source, r);
    OccursInside(root, s);
  }

  /**
   Every Read and Write of a well-formed tree is attached to the innermost of the scopes around it; there
   always is one.
   */
  lemma ReferencesAreAttached(lang: Language, root: Node, source: string)
    requires WellFormed(root) && root.span.end <= |source|
    ensures var scopes := ScopesOf(lang, root, |source|);
            forall r :: r in AllAttached(ReadsAndWrites(lang, root, source), scopes) ==>
              && r.scope.Some? && r.scope.value < |scopes|
              && scopes[r.scope.value].span.Contains(r.reference.byte)
              && forall i: nat :: i < |scopes| ==>
                   (scopes[i].span.Contains(r.reference.byte) <==> Encloses(scopes, i, r.scope.value))
  {
    hide WellFormed, ScopesOf, Reads, Writes, IsLaminar, InnermostScope, Encloses;
    var scopes := ScopesOf(lang, root, |source|);
    var references := ReadsAndWrites(lang, root, source);
    ScopesAreLaminar(lang, root, |source|);
    forall i | 0 <= i < |references| ensures references[i].byte < |source| {
      var r := references[i];
      if r in Reads(lang, root, None, source) {
        ReadLiesInside(lang, root, source, r);
      } else {
        WriteLiesInside(root, source, r);
      }
    }
    forall r | r in AllAttached(references, scopes)
      ensures r.scope.Some? && r.scope.value < |scopes| && scopes[r.scope.value].span.Contains(r.reference.byte)
      ensures forall i: nat :: i < |scopes| ==>
                (scopes[i].span.Contains(r.reference.byte) <==> Encloses(scopes, i, r.scope.value))
    {
      InnermostChain(r.reference.byte, scopes, |source|);
    }
  }
}
