/**
 The neutral graph facts: structural identities with their total orders, edges with a
 lossless key that leaves confidence out, and the conjunctive edge filter.
 */
module Graph {
  import opened Order

  datatype Option<+T> = None | Some(value: T)

  datatype Result<+T, +E> = Ok(value: T) | Err(error: E)

  // ----- Symbol identity

  datatype Package = Package(manager: string, name: string, version: string)

  datatype Descriptor =
    | Namespace(name: string)
    | Type(name: string)
    | Term(name: string)
    | Method(name: string, disambiguator: string)
    | TypeParameter(name: string)
    | Parameter(name: string)
    | Meta(name: string)
    | Macro(name: string)
  {
    function KindRank(): nat {
      match this
      case Namespace(_) => 0
      case Type(_) => 1
      case Term(_) => 2
      case Method(_, _) => 3
      case TypeParameter(_) => 4
      case Parameter(_) => 5
      case Meta(_) => 6
      case Macro(_) => 7
    }

    function Disambiguator(): string {
      if Method? then disambiguator else ""
    }
  }

  datatype SymbolId =
    | Global(scheme: string, package: Package, lang: string, descriptors: seq<Descriptor>)
    | Local(file: string, id: string)

  function ComparePackage(a: Package, b: Package): Ordering {
    CompareString(a.manager, b.manager)
    .Then(CompareString(a.name, b.name))
    .Then(CompareString(a.version, b.version))
  }

  function CompareDescriptor(a: Descriptor, b: Descriptor): Ordering {
    CompareInt(a.KindRank(), b.KindRank())
    .Then(CompareString(a.name, b.name))
    .Then(CompareString(a.Disambiguator(), b.Disambiguator()))
  }

  function CompareDescriptors(a: seq<Descriptor>, b: seq<Descriptor>): Ordering {
    CompareSeq(a, b, CompareDescriptor)
  }

  /** Global identities come before local ones; then the stored coordinates in declaration order. */
  function CompareId(a: SymbolId, b: SymbolId): Ordering {
    match (a, b)
    case (Global(_, _, _, _), Local(_, _)) => Less
    case (Local(_, _), Global(_, _, _, _)) => Greater
    case (Local(fa, ia), Local(fb, ib)) => CompareString(fa, fb).Then(CompareString(ia, ib))
    case (Global(sa, pa, la, da), Global(sb, pb, lb, db)) =>
      CompareString(sa, sb)
      .Then(ComparePackage(pa, pb))
      .Then(CompareString(la, lb))
      .Then(CompareDescriptors(da, db))
  }

  lemma PackagesTotallyOrdered()
    ensures TotalOrder(ComparePackage)
  {
    StringsTotallyOrdered();
    LexTotal(CompareString, CompareString);
    LexTotal(CompareString, Lex(CompareString, CompareString));
    PullbackTotal(ComparePackage,
                  (p: Package) => (p.manager, (p.name, p.version)),
                  Lex(CompareString, Lex(CompareString, CompareString)));
  }

  lemma DescriptorsTotallyOrdered()
    ensures TotalOrder(CompareDescriptor)
    ensures TotalOrder(CompareDescriptors)
  {
    StringsTotallyOrdered();
    LexTotal(CompareString, CompareString);
    LexTotal(CompareInt, Lex(CompareString, CompareString));
    PullbackTotal(CompareDescriptor,
                  (d: Descriptor) => (d.KindRank() as int, (d.name, d.Disambiguator())),
                  Lex(CompareInt, Lex(CompareString, CompareString)));
    SeqsTotallyOrdered(CompareDescriptor);
    PullbackTotal(CompareDescriptors, (s: seq<Descriptor>) => s,
                  (a: seq<Descriptor>, b: seq<Descriptor>) => CompareSeq(a, b, CompareDescriptor));
  }

  /** All coordinates of an identity in comparison order, the variant first. */
  function IdCoordinates(s: SymbolId)
    : (int, ((string, (Package, (string, seq<Descriptor>))), (string, string)))
  {
    match s
    case Global(scheme, package, lang, descriptors) => (0, ((scheme, (package, (lang, descriptors))), ("", "")))
    case Local(file, id) => (1, (("", (Package("", "", ""), ("", []))), (file, id)))
  }

  function IdOrder()
    : ((int, ((string, (Package, (string, seq<Descriptor>))), (string, string))),
       (int, ((string, (Package, (string, seq<Descriptor>))), (string, string)))) -> Ordering
  {
    Lex(CompareInt, Lex(Lex(CompareString, Lex(ComparePackage, Lex(CompareString, CompareDescriptors))),
                        Lex(CompareString, CompareString)))
  }

  lemma IdOrderTotal()
    ensures TotalOrder(IdOrder())
  {
    StringsTotallyOrdered();
    PackagesTotallyOrdered();
    DescriptorsTotallyOrdered();
    LexTotal(CompareString, CompareString);
    LexTotal(CompareString, CompareDescriptors);
    LexTotal(ComparePackage, Lex(CompareString, CompareDescriptors));
    LexTotal(CompareString, Lex(ComparePackage, Lex(CompareString, CompareDescriptors)));
    LexTotal(Lex(CompareString, Lex(ComparePackage, Lex(CompareString, CompareDescriptors))),
             Lex(CompareString, CompareString));
    LexTotal(CompareInt, Lex(Lex(CompareString, Lex(ComparePackage, Lex(CompareString, CompareDescriptors))),
                             Lex(CompareString, CompareString)));
  }

  lemma CompareIdByCoordinates(a: SymbolId, b: SymbolId)
    ensures CompareId(a, b) == IdOrder()(IdCoordinates(a), IdCoordinates(b))
  {
    var x, y := IdCoordinates(a), IdCoordinates(b);
    var named := Lex(CompareString, CompareDescriptors);
    var packaged := Lex(ComparePackage, named);
    var global := Lex(CompareString, packaged);
    var local := Lex(CompareString, CompareString);
    assert named(x.1.0.1.1, y.1.0.1.1) == CompareString(x.1.0.1.1.0, y.1.0.1.1.0)
                                          .Then(CompareDescriptors(x.1.0.1.1.1, y.1.0.1.1.1));
    assert packaged(x.1.0.1, y.1.0.1) == ComparePackage(x.1.0.1.0, y.1.0.1.0).Then(named(x.1.0.1.1, y.1.0.1.1));
    assert global(x.1.0, y.1.0) == CompareString(x.1.0.0, y.1.0.0).Then(packaged(x.1.0.1, y.1.0.1));
    assert local(x.1.1, y.1.1) == CompareString(x.1.1.0, y.1.1.0).Then(CompareString(x.1.1.1, y.1.1.1));
    assert Lex(global, local)(x.1, y.1) == global(x.1.0, y.1.0).Then(local(x.1.1, y.1.1));
    assert IdOrder()(x, y) == CompareInt(x.0, y.0).Then(Lex(global, local)(x.1, y.1));
  }

  /** The structural order of identities is a strict total order consistent with equality. */
  lemma IdsTotallyOrdered()
    ensures TotalOrder(CompareId)
  {
    IdOrderTotal();
    forall a: SymbolId, b: SymbolId {
      CompareIdByCoordinates(a, b);
    }
    PullbackTotal(CompareId, IdCoordinates, IdOrder());
  }

  /** Descriptor kinds rank as namespace, type, term, method, type parameter, parameter, meta, macro. */
  lemma DescriptorKindsRank(n: string, m: string)
    ensures Namespace(n).KindRank() < Type(n).KindRank() < Term(n).KindRank() < Descriptor.Method(n, m).KindRank()
    ensures Descriptor.Method(n, m).KindRank() < TypeParameter(n).KindRank() < Parameter(n).KindRank()
    ensures Parameter(n).KindRank() < Meta(n).KindRank() < Macro(n).KindRank()
  {
  }

  /** By manager, then name, then version. */
  ghost predicate PackageLess(a: Package, b: Package) {
    || CompareString(a.manager, b.manager) == Less
    || (a.manager == b.manager && CompareString(a.name, b.name) == Less)
    || (a.manager == b.manager && a.name == b.name && CompareString(a.version, b.version) == Less)
  }

  /** By kind, then name; methods of one name by disambiguator. */
  ghost predicate DescriptorLess(a: Descriptor, b: Descriptor) {
    || a.KindRank() < b.KindRank()
    || (a.KindRank() == b.KindRank() && CompareString(a.name, b.name) == Less)
    || (a.Method? && b.Method? && a.name == b.name && CompareString(a.disambiguator, b.disambiguator) == Less)
  }

  /**
   Global identities precede local ones. Global ones are ordered by scheme, package, language and
   descriptors, local ones by file and name; each coordinate counts only where all before it agree.
   */
  lemma IdsOrderedByCoordinates(a: SymbolId, b: SymbolId)
    ensures a.Global? && b.Local? ==> CompareId(a, b) == Less
    ensures a.Local? && b.Local? ==>
              (CompareId(a, b) == Less <==>
                 || CompareString(a.file, b.file) == Less
                 || (a.file == b.file && CompareString(a.id, b.id) == Less))
    ensures a.Global? && b.Global? ==>
              (CompareId(a, b) == Less <==>
                 || CompareString(a.scheme, b.scheme) == Less
                 || (a.scheme == b.scheme && PackageLess(a.package, b.package))
                 || (a.scheme == b.scheme && a.package == b.package && CompareString(a.lang, b.lang) == Less)
                 || (a.scheme == b.scheme && a.package == b.package && a.lang == b.lang
                     && exists k: nat :: FirstDifferenceLess(a.descriptors, b.descriptors, DescriptorLess, k)))
  {
    hide CompareString, CompareSeq;
    StringsTotallyOrdered();
    PackagesTotallyOrdered();
    DescriptorsTotallyOrdered();
    if a.Global? && b.Global? {
      CompareSeqDecides(a.descriptors, b.descriptors, CompareDescriptor, DescriptorLess);
    }
  }

  /** The iteration order of an ordered set of identities. */
  function SortedIds(s: set<SymbolId>): (ids: seq<SymbolId>)
    ensures |ids| == |s|
    ensures forall x :: x in ids <==> x in s
  {
    IdsTotallyOrdered();
    SortedSeq(s, CompareId)
  }

  lemma SortedIdsOrdered(s: set<SymbolId>)
    ensures forall i, j :: 0 <= i < j < |SortedIds(s)| ==> CompareId(SortedIds(s)[i], SortedIds(s)[j]) == Less
  {
    hide CompareId;
    IdsTotallyOrdered();
  }

  // ----- Edges

  datatype Confidence = Heuristic | NameOnly | Scoped | Exact {
    function Rank(): nat {
      match this
      case Heuristic => 0
      case NameOnly => 1
      case Scoped => 2
      case Exact => 3
    }

    predicate AtLeast(other: Confidence) { Rank() >= other.Rank() }

    predicate Above(other: Confidence) { Rank() > other.Rank() }

    function Min(other: Confidence): Confidence {
      if other.AtLeast(this) then this else other
    }
  }

  /** Heuristic, then name only, then scoped, then exact. */
  lemma ConfidencesFormChain(c: Confidence, d: Confidence)
    ensures c.AtLeast(d) <==> d == Heuristic || c == Exact || c == d || (c == Scoped && d == NameOnly)
    ensures c.Above(d) <==> c.AtLeast(d) && c != d
  {
  }

  /** `m` is the weaker of two confidences. */
  ghost predicate IsWeaker(m: Confidence, c: Confidence, d: Confidence) {
    c.AtLeast(m) && d.AtLeast(m) && (m == c || m == d)
  }

  lemma MinIsWeaker(c: Confidence, d: Confidence)
    ensures IsWeaker(c.Min(d), c, d)
  {
  }

  datatype RefRole = Call | IsImplementation | Import | ModuleRef | TypeRef | Read | Write {
    function Rank(): nat {
      match this
      case Call => 0
      case IsImplementation => 1
      case Import => 2
      case ModuleRef => 3
      case TypeRef => 4
      case Read => 5
      case Write => 6
    }
  }

  datatype Provenance =
    | SymbolTable | ScopeGraph | FfiBridge | Conformance | NormalizedName
    | External | CrossArtifact | LocalType
  {
    function Rank(): nat {
      match this
      case SymbolTable => 0
      case ScopeGraph => 1
      case FfiBridge => 2
      case Conformance => 3
      case NormalizedName => 4
      case External => 5
      case CrossArtifact => 6
      case LocalType => 7
    }
  }

  datatype Occurrence = Occurrence(file: string, line: nat, col: nat, byte: nat)

  datatype EdgeKey = EdgeKey(
    from: SymbolId,
    to: SymbolId,
    role: RefRole,
    occurrenceFile: string,
    occurrenceByte: nat,
    provenance: Provenance)

  datatype Edge = Edge(
    from: SymbolId,
    to: SymbolId,
    role: RefRole,
    confidence: Confidence,
    provenance: Provenance,
    occ: Occurrence)
  {
    /** The lossless identity of the edge; confidence is deliberately left out. */
    function Key(): EdgeKey {
      EdgeKey(from, to, role, occ.file, occ.byte, provenance)
    }
  }

  function CompareKey(a: EdgeKey, b: EdgeKey): Ordering {
    CompareId(a.from, b.from)
    .Then(CompareId(a.to, b.to))
    .Then(CompareInt(a.role.Rank(), b.role.Rank()))
    .Then(CompareString(a.occurrenceFile, b.occurrenceFile))
    .Then(CompareInt(a.occurrenceByte, b.occurrenceByte))
    .Then(CompareInt(a.provenance.Rank(), b.provenance.Rank()))
  }

  function KeyCoordinates(k: EdgeKey): (SymbolId, (SymbolId, (int, (string, (int, int))))) {
    (k.from, (k.to, (k.role.Rank(), (k.occurrenceFile, (k.occurrenceByte, k.provenance.Rank())))))
  }

  function KeyOrder()
    : ((SymbolId, (SymbolId, (int, (string, (int, int))))),
       (SymbolId, (SymbolId, (int, (string, (int, int)))))) -> Ordering
  {
    Lex(CompareId, Lex(CompareId, Lex(CompareInt, Lex(CompareString, Lex(CompareInt, CompareInt)))))
  }

  lemma KeyOrderTotal()
    ensures TotalOrder(KeyOrder())
  {
    IdsTotallyOrdered();
    StringsTotallyOrdered();
    LexTotal(CompareInt, CompareInt);
    LexTotal(CompareString, Lex(CompareInt, CompareInt));
    LexTotal(CompareInt, Lex(CompareString, Lex(CompareInt, CompareInt)));
    LexTotal(CompareId, Lex(CompareInt, Lex(CompareString, Lex(CompareInt, CompareInt))));
    LexTotal(CompareId, Lex(CompareId, Lex(CompareInt, Lex(CompareString, Lex(CompareInt, CompareInt)))));
  }

  lemma CompareKeyByCoordinates(a: EdgeKey, b: EdgeKey)
    ensures CompareKey(a, b) == KeyOrder()(KeyCoordinates(a), KeyCoordinates(b))
  {
    var x, y := KeyCoordinates(a), KeyCoordinates(b);
    var byByte := Lex(CompareInt, CompareInt);
    var byFile := Lex(CompareString, byByte);
    var byRole := Lex(CompareInt, byFile);
    var byTo := Lex(CompareId, byRole);
    assert byFile(x.1.1.1, y.1.1.1) == CompareString(a.occurrenceFile, b.occurrenceFile)
                                       .Then(byByte(x.1.1.1.1, y.1.1.1.1));
    assert byRole(x.1.1, y.1.1) == CompareInt(a.role.Rank(), b.role.Rank()).Then(byFile(x.1.1.1, y.1.1.1));
    assert byTo(x.1, y.1) == CompareId(a.to, b.to).Then(byRole(x.1.1, y.1.1));
    assert KeyOrder()(x, y) == CompareId(a.from, b.from).Then(byTo(x.1, y.1));
  }

  /** The stable edge order is a strict total order consistent with equality of keys. */
  lemma KeysTotallyOrdered()
    ensures TotalOrder(CompareKey)
  {
    KeyOrderTotal();
    forall a: EdgeKey, b: EdgeKey {
      CompareKeyByCoordinates(a, b);
    }
    PullbackTotal(CompareKey, KeyCoordinates, KeyOrder());
  }

  /** Roles and provenances rank as they are declared. */
  lemma RanksFollowDeclaration()
    ensures Call.Rank() < IsImplementation.Rank() < Import.Rank() < ModuleRef.Rank() < TypeRef.Rank()
    ensures TypeRef.Rank() < Read.Rank() < Write.Rank()
    ensures SymbolTable.Rank() < ScopeGraph.Rank() < FfiBridge.Rank() < Conformance.Rank() < NormalizedName.Rank()
    ensures NormalizedName.Rank() < External.Rank() < CrossArtifact.Rank() < LocalType.Rank()
  {
  }

  /** Two edges have the same key exactly when they agree in all but confidence, line and column. */
  lemma KeysTellEdges(e: Edge, f: Edge)
    ensures e.Key() == f.Key() <==>
            && e.from == f.from && e.to == f.to && e.role == f.role && e.provenance == f.provenance
            && e.occ.file == f.occ.file && e.occ.byte == f.occ.byte
  {
  }

  lemma RoleRanksDiffer(r: RefRole, s: RefRole)
    ensures r.Rank() == s.Rank() <==> r == s
  {
  }

  /** By source, target, role, file, byte and provenance, each where all before it agree. */
  lemma KeysOrderedByCoordinates(e: Edge, f: Edge)
    ensures CompareKey(e.Key(), f.Key()) == Less <==>
            || CompareId(e.from, f.from) == Less
            || (e.from == f.from &&
                (|| CompareId(e.to, f.to) == Less
                 || (e.to == f.to &&
                     (|| e.role.Rank() < f.role.Rank()
                      || (e.role == f.role &&
                          (|| CompareString(e.occ.file, f.occ.file) == Less
                           || (e.occ.file == f.occ.file &&
                               (|| e.occ.byte < f.occ.byte
                                || (e.occ.byte == f.occ.byte && e.provenance.Rank() < f.provenance.Rank())))))))))
  {
    hide CompareId, CompareString;
    IdsTotallyOrdered();
    StringsTotallyOrdered();
    RoleRanksDiffer(e.role, f.role);
  }

  /** No two edges of the set carry the same lossless key. */
  ghost predicate UniqueKeys(edges: set<Edge>) {
    forall e, f :: e in edges && f in edges && e.Key() == f.Key() ==> e == f
  }

  // ----- Definitions

  datatype ByteSpan = ByteSpan(start: nat, end: nat) {
    predicate Contains(byte: nat) { start <= byte < end }

    function Len(): nat { if end < start then 0 else end - start }
  }

  datatype SymbolKind =
    | Function | Method | Struct | Enum | Field | Variant | Trait | Interface | Class | TypeAlias
    | Const | Static | Module | Impl | Table | View | Column | Resource | Other

  datatype Symbol = Symbol(id: SymbolId, name: string, kind: SymbolKind, file: string, line: nat, span: ByteSpan)

  datatype CodeGraph = CodeGraph(symbols: seq<Symbol>, edges: seq<Edge>)

  // ----- Filtering

  datatype EdgeFilter = EdgeFilter(
    role: Option<RefRole>,
    minConfidence: Confidence,
    provenance: Option<Provenance>)
  {
    predicate Matches(edge: Edge) {
      && edge.confidence.AtLeast(minConfidence)
      && (role.None? || edge.role == role.value)
      && (provenance.None? || edge.provenance == provenance.value)
    }

    /** The edge has the role and the provenance asked for, if any, and at least the confidence asked for. */
    ghost predicate AsksFor(edge: Edge) {
      && edge.confidence.AtLeast(minConfidence)
      && (forall r :: role == Some(r) ==> edge.role == r)
      && (forall p :: provenance == Some(p) ==> edge.provenance == p)
    }

    /** A filter drops no edge asked for and lets no other one through. */
    lemma MatchesWhatIsAskedFor()
      ensures forall edge :: Matches(edge) <==> AsksFor(edge)
    {
    }
  }
}
