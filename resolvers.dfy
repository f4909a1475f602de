/**
 * Child-reader resolvers: `findreader` over an ordered list of reader
 * prototypes, `__FUSE_RESOLVERS` trying resolvers in turn, the scope table
 * that wires the concrete readers together, and `_resolvechildreader`.
 * A prototype is the kind of reader to build plus the resolver the built
 * reader will use for its own children; building it stands for `deepcopy`.
 */
module Resolvers {
  import opened Wrappers
  import opened Kinds

  datatype Proto = Proto(kind: Kind, resolver: Option<Resolver>)

  datatype Resolver =
    | Find(protos: seq<Proto>)      // `__DEFAULT_RESOLVER_BUILDER(readers)`
    | Fuse(parts: seq<Resolver>)    // `__FUSE_RESOLVERS(*parts)`

  /** `findreader`: the first prototype, in list order, whose `matchheader` takes the line. */
  function FindReader(protos: seq<Proto>, line: string): (r: Option<Proto>)
    ensures r.None? <==> forall i :: 0 <= i < |protos| ==> !MatchHeader(protos[i].kind, line)
    ensures r.Some? ==> exists i :: (0 <= i < |protos| && protos[i] == r.value &&
      MatchHeader(protos[i].kind, line) && forall j :: 0 <= j < i ==> !MatchHeader(protos[j].kind, line))
  {
    if protos == [] then None
    else if MatchHeader(protos[0].kind, line) then Some(protos[0])
    else
      var r := FindReader(protos[1..], line);
      assert forall i :: 1 <= i < |protos| ==> protos[i] == protos[1..][i - 1];
      if r.Some? then
        var i :| 0 <= i < |protos[1..]| && protos[1..][i] == r.value &&
          MatchHeader(protos[1..][i].kind, line) && forall j :: 0 <= j < i ==> !MatchHeader(protos[1..][j].kind, line);
        assert protos[i + 1] == r.value;
        assert forall j :: 0 <= j < i + 1 ==> !MatchHeader(protos[j].kind, line) by {
          forall j | 0 <= j < i + 1 ensures !MatchHeader(protos[j].kind, line) {
            if j > 0 { assert protos[j] == protos[1..][j - 1]; }
          }
        }
        r
      else r
  }

  /** What a resolver returns for a line. */
  function Resolve(res: Resolver, line: string): Option<Proto>
    decreases res
  {
    match res
    case Find(ps) => FindReader(ps, line)
    case Fuse(rs) => FuseFirst(rs, line)
  }

  /** The fused resolver's loop: the first result that is not `None`. */
  function FuseFirst(rs: seq<Resolver>, line: string): Option<Proto>
    decreases rs
  {
    if rs == [] then None
    else
      match Resolve(rs[0], line)
      case Some(p) => Some(p)
      case None => FuseFirst(rs[1..], line)
  }

  /** Every prototype a resolver can return, in the order it tries them. */
  function Protos(res: Resolver): seq<Proto>
    decreases res
  {
    match res
    case Find(ps) => ps
    case Fuse(rs) => ProtosOf(rs)
  }

  function ProtosOf(rs: seq<Resolver>): seq<Proto>
    decreases rs
  {
    if rs == [] then [] else Protos(rs[0]) + ProtosOf(rs[1..])
  }

  /** The first match in a concatenation is the first match of the front part, if any. */
  lemma {:induction false} FindReaderConcat(a: seq<Proto>, b: seq<Proto>, line: string)
    ensures FindReader(a + b, line) == if FindReader(a, line).Some? then FindReader(a, line) else FindReader(b, line)
    decreases |a|
  {
    if a != [] {
      assert (a + b)[1..] == a[1..] + b;
      FindReaderConcat(a[1..], b, line);
    } else {
      assert a + b == b;
    }
  }

  /** A fused resolver is `findreader` over the concatenated prototype lists. */
  lemma {:induction false} ResolveIsFindReader(res: Resolver, line: string)
    ensures Resolve(res, line) == FindReader(Protos(res), line)
    decreases res
  {
    match res
    case Find(ps) =>
    case Fuse(rs) => FuseIsFindReader(rs, line);
  }

  lemma {:induction false} FuseIsFindReader(rs: seq<Resolver>, line: string)
    ensures FuseFirst(rs, line) == FindReader(ProtosOf(rs), line)
    decreases rs
  {
    if rs != [] {
      ResolveIsFindReader(rs[0], line);
      FuseIsFindReader(rs[1..], line);
      FindReaderConcat(Protos(rs[0]), ProtosOf(rs[1..]), line);
    }
  }

  /** A fused resolver gives the first non-`None` result of its parts, in order. */
  lemma {:induction false} FuseFirstSpec(rs: seq<Resolver>, line: string)
    ensures FuseFirst(rs, line).None? <==> forall i :: 0 <= i < |rs| ==> Resolve(rs[i], line).None?
    ensures FuseFirst(rs, line).Some? ==> exists i :: (0 <= i < |rs| &&
      Resolve(rs[i], line) == FuseFirst(rs, line) && forall j :: 0 <= j < i ==> Resolve(rs[j], line).None?)
    decreases rs
  {
    if rs != [] {
      FuseFirstSpec(rs[1..], line);
      assert forall i :: 1 <= i < |rs| ==> rs[i] == rs[1..][i - 1];
      if Resolve(rs[0], line).None? && FuseFirst(rs, line).Some? {
        var i :| 0 <= i < |rs[1..]| && Resolve(rs[1..][i], line) == FuseFirst(rs[1..], line) &&
          forall j :: 0 <= j < i ==> Resolve(rs[1..][j], line).None?;
        assert Resolve(rs[i + 1], line) == FuseFirst(rs, line);
        assert forall j :: 0 <= j < i + 1 ==> Resolve(rs[j], line).None? by {
          forall j | 0 <= j < i + 1 ensures Resolve(rs[j], line).None? {
            if j > 0 { assert rs[j] == rs[1..][j - 1]; }
          }
        }
      }
    }
  }

  /** A resolver whose prototypes include one that takes the line always resolves it. */
  lemma AnyMatchResolves(res: Resolver, line: string, i: nat)
    requires i < |Protos(res)| && MatchHeader(Protos(res)[i].kind, line)
    ensures Resolve(res, line).Some?
  {
    ResolveIsFindReader(res, line);
  }

  // --------------------------------------------------------- scope table

  /** `__GENERIC_RESOLVER`'s list: only includes. */
  const GenericProtos: seq<Proto> := [Proto(Include(false), None)]

  /** The section kinds a section block resolves after includes. */
  const SectionProtos: seq<Proto> := [Proto(SolidSection, None), Proto(ShellSection, None), Proto(BeamSection, None)]

  /** The readers of a part or assembly body, each with the resolver its instance uses. */
  const PartProtos: seq<Proto> := [
    Proto(Node, Some(Generic)),
    Proto(Element, Some(Generic)),
    Proto(Nset, Some(Generic)),
    Proto(Elset, Some(Generic)),
    Proto(Surface, Some(Generic)),
    Proto(Material, Some(Generic)),
    Proto(Distribution, Some(Generic)),
    Proto(Section, Some(SectionScope)),
    Proto(Parameter, Some(Generic)),
    Proto(Orientation, Some(Generic))]

  /** The top-level blocks the root tries before the part readers. */
  const TopProtos: seq<Proto> := [
    Proto(Assembly, Some(PartScope)),
    Proto(Part, Some(AssemblyScope)),
    Proto(Step, Some(Generic))]

  /** `__GENERIC_RESOLVER`. */
  const Generic: Resolver := Find(GenericProtos)

  /** The resolver of a section block: includes, then the three section kinds. */
  const SectionScope: Resolver := Fuse([Generic, Find(SectionProtos)])

  /** `__PART_RESOLVER`: the part readers, then includes. */
  const PartScope: Resolver := Fuse([Find(PartProtos), Generic])

  /** `__ASSEMBLY_RESOLVER` is the part resolver itself. */
  const AssemblyScope: Resolver := PartScope

  /** `DEFAULT_RESOLVER`, the root's resolver: the top-level blocks, then everything a part takes. */
  const Default: Resolver := Fuse([Find(TopProtos), PartScope])

  lemma ProtosOfPair(a: Resolver, b: Resolver)
    ensures ProtosOf([a, b]) == Protos(a) + Protos(b)
  {
    assert [a, b][1..] == [b];
    assert [b][1..] == [];
    assert ProtosOf([b]) == Protos(b) + ProtosOf([]);
    assert Protos(b) + [] == Protos(b);
  }

  lemma SectionOrder() ensures Protos(SectionScope) == GenericProtos + SectionProtos
  {
    ProtosOfPair(Generic, Find(SectionProtos));
  }

  lemma PartOrder() ensures Protos(PartScope) == PartProtos + GenericProtos
  {
    ProtosOfPair(Find(PartProtos), Generic);
  }

  lemma DefaultOrder() ensures Protos(Default) == TopProtos + PartProtos + GenericProtos
  {
    PartOrder();
    ProtosOfPair(Find(TopProtos), PartScope);
  }

  /** The order in which each scope tries the readers. */
  lemma ScopeOrder()
    ensures Protos(Generic) == GenericProtos
    ensures Protos(SectionScope) == GenericProtos + SectionProtos
    ensures Protos(PartScope) == PartProtos + GenericProtos
    ensures Protos(Default) == TopProtos + PartProtos + GenericProtos
  {
    SectionOrder();
    PartOrder();
    DefaultOrder();
  }

  /** No prototype of the list builds a section-kind reader. */
  predicate NoSectionKinds(ps: seq<Proto>)
  {
    forall p :: p in ps ==> !IsSectionChild(p.kind)
  }

  lemma NoSectionKindsConcat(a: seq<Proto>, b: seq<Proto>)
    requires NoSectionKinds(a) && NoSectionKinds(b)
    ensures NoSectionKinds(a + b)
  {
  }

  lemma ListKinds()
    ensures NoSectionKinds(TopProtos) && NoSectionKinds(PartProtos) && NoSectionKinds(GenericProtos)
    ensures forall p :: p in SectionProtos ==> IsSectionChild(p.kind)
  {
    TopKinds();
    PartKinds();
    GenericKinds();
    SectionKinds();
  }

  lemma GenericKinds()
    ensures NoSectionKinds(GenericProtos)
  {
    forall p | p in GenericProtos
      ensures !IsSectionChild(p.kind)
    {
      assert p == GenericProtos[0];
    }
  }

  lemma SectionKinds()
    ensures forall p :: p in SectionProtos ==> IsSectionChild(p.kind)
  {
    forall p | p in SectionProtos
      ensures IsSectionChild(p.kind)
    {
      var i :| 0 <= i < |SectionProtos| && SectionProtos[i] == p;
    }
  }

  lemma TopKinds()
    ensures NoSectionKinds(TopProtos)
  {
    forall p | p in TopProtos
      ensures !IsSectionChild(p.kind)
    {
      var i :| 0 <= i < |TopProtos| && TopProtos[i] == p;
    }
  }

  lemma PartKinds()
    ensures NoSectionKinds(PartProtos)
  {
    forall p | p in PartProtos
      ensures !IsSectionChild(p.kind)
    {
      var i :| 0 <= i < |PartProtos| && PartProtos[i] == p;
    }
  }

  /** A part or assembly body never builds a section-kind reader. */
  lemma PartScopeKinds()
    ensures NoSectionKinds(Protos(PartScope))
  {
    ListKinds();
    NoSectionKindsConcat(PartProtos, GenericProtos);
    PartOrder();
  }

  /** The root never builds a section-kind reader. */
  lemma DefaultScopeKinds()
    ensures NoSectionKinds(Protos(Default))
  {
    ListKinds();
    NoSectionKindsConcat(PartProtos, GenericProtos);
    NoSectionKindsConcat(TopProtos, PartProtos + GenericProtos);
    assert TopProtos + PartProtos + GenericProtos == TopProtos + (PartProtos + GenericProtos);
    DefaultOrder();
  }

  /** A section builds only includes and section-kind readers. */
  lemma SectionScopeKinds()
    ensures forall p :: p in Protos(SectionScope) && p.kind != Include(false) ==> IsSectionChild(p.kind)
  {
    ListKinds();
    SectionOrder();
  }

  /** Every scope resolves an include line. */
  lemma IncludeEverywhere(line: string)
    requires MatchHeader(Include(false), line)
    ensures Resolve(Generic, line).Some? && Resolve(SectionScope, line).Some?
    ensures Resolve(PartScope, line).Some? && Resolve(Default, line).Some?
  {
    ScopeOrder();
    AnyMatchResolves(Generic, line, 0);
    AnyMatchResolves(SectionScope, line, 0);
    AnyMatchResolves(PartScope, line, |PartProtos|);
    AnyMatchResolves(Default, line, |TopProtos| + |PartProtos|);
  }

  /** `_resolvechildreader`: nothing when children are refused or no resolver is set. */
  function ChildReader(k: Kind, res: Option<Resolver>, line: string): (r: Option<Proto>)
    ensures !AcceptChildren(k) || res.None? ==> r.None?
    ensures AcceptChildren(k) && res.Some? ==> r == Resolve(res.value, line)
    ensures r.Some? ==> MatchHeader(r.value.kind, line)
  {
    if AcceptChildren(k) && res.Some? then
      ResolveIsFindReader(res.value, line);
      Resolve(res.value, line)
    else None
  }

  // ------------------------------------------------------ inline includes

  /** No prototype reachable through the resolver, at any depth, builds an inline include:
      includes are built non-inline and only `setinline` changes that. */
  predicate NoInline(res: Resolver)
    decreases res
  {
    match res
    case Find(ps) => forall i :: 0 <= i < |ps| ==> ProtoNoInline(ps[i])
    case Fuse(rs) => forall i :: 0 <= i < |rs| ==> NoInline(rs[i])
  }

  predicate ProtoNoInline(p: Proto)
    decreases p
  {
    p.kind != Include(true) && (p.resolver.Some? ==> NoInline(p.resolver.value))
  }

  lemma {:induction false} ProtosNoInline(res: Resolver)
    requires NoInline(res)
    ensures forall i :: 0 <= i < |Protos(res)| ==> ProtoNoInline(Protos(res)[i])
    decreases res
  {
    match res
    case Find(ps) =>
    case Fuse(rs) => ProtosOfNoInline(rs);
  }

  lemma {:induction false} ProtosOfNoInline(rs: seq<Resolver>)
    requires forall i :: 0 <= i < |rs| ==> NoInline(rs[i])
    ensures forall i :: 0 <= i < |ProtosOf(rs)| ==> ProtoNoInline(ProtosOf(rs)[i])
    decreases rs
  {
    if rs != [] {
      ProtosNoInline(rs[0]);
      assert forall i :: 0 <= i < |rs[1..]| ==> rs[1..][i] == rs[i + 1];
      ProtosOfNoInline(rs[1..]);
      var a, b := Protos(rs[0]), ProtosOf(rs[1..]);
      assert forall i :: 0 <= i < |a + b| ==> (a + b)[i] == if i < |a| then a[i] else b[i - |a|];
    }
  }

  /** What such a resolver returns builds no inline include, nor do its own children. */
  lemma ResolveNoInline(res: Resolver, line: string)
    requires NoInline(res) && Resolve(res, line).Some?
    ensures ProtoNoInline(Resolve(res, line).value)
  {
    ResolveIsFindReader(res, line);
    ProtosNoInline(res);
  }

  /** The scope table builds no inline include. */
  lemma ScopesNoInline()
    ensures NoInline(Generic) && NoInline(SectionScope) && NoInline(PartScope) && NoInline(Default)
  {
    assert ProtoNoInline(GenericProtos[0]);
    assert NoInline(Generic);
    assert NoInline(Find(SectionProtos));
    assert NoInline(SectionScope);
    assert NoInline(Find(PartProtos)) by {
      forall i | 0 <= i < |PartProtos| ensures ProtoNoInline(PartProtos[i]) {
        assert PartProtos[i].resolver == Some(Generic) || PartProtos[i].resolver == Some(SectionScope);
      }
    }
    assert NoInline(PartScope);
    assert NoInline(Find(TopProtos)) by {
      forall i | 0 <= i < |TopProtos| ensures ProtoNoInline(TopProtos[i]) {
        assert TopProtos[i].resolver == Some(PartScope) || TopProtos[i].resolver == Some(Generic);
      }
    }
    assert NoInline(Default);
  }
}
