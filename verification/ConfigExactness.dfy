// Where the lookup answers exactly: on plain declarations that the walk never meets twice.
module ConfigExactness {
  import opened Options
  import opened ConfigTypes
  import opened ConfigLookup
  import opened ConfigPresence
  import opened ConfigLookupProofs
  import opened ConfigMisreadings

  // ---- Declarations that branch out and never meet ----

  // For every declaration, all declarations its references lead to, and itself.
  type Below = map<Site, set<Site>>

  ghost function NameBelow(w: World, below: Below, file: string, name: string): set<Site> {
    match DeclForTypeName(w, file, name)
    case None => {}
    case Some(site) => if site in below then below[site] else {}
  }

  ghost function TypeBelow(w: World, below: Below, file: string, node: TypeNode): set<Site> {
    match node
    case Literal(members) => MembersBelow(w, below, file, members)
    case Paren(inner) => TypeBelow(w, below, file, inner)
    case Operator(_, inner) => TypeBelow(w, below, file, inner)
    case Intersection(parts) => AllBelow(w, below, file, parts)
    case Union(first, rest) => TypeBelow(w, below, file, first) + AllBelow(w, below, file, rest)
    case ArrayOf(element) => TypeBelow(w, below, file, element)
    case Indexed(container, _) => TypeBelow(w, below, file, container)
    case Reference(head, _, args) =>
      if (IsPassthrough(head) || IsArrayName(head)) && args != [] then TypeBelow(w, below, file, args[0])
      else NameBelow(w, below, file, head)
    case Parameter(name) => NameBelow(w, below, file, name)
    case OtherType => {}
  }

  ghost function AllBelow(w: World, below: Below, file: string, types: seq<TypeNode>): set<Site> {
    if types == [] then {} else TypeBelow(w, below, file, types[0]) + AllBelow(w, below, file, types[1..])
  }

  ghost function MemberBelow(w: World, below: Below, file: string, m: Member): set<Site> {
    if m.Property? && m.declared.Some? then TypeBelow(w, below, file, m.declared.value) else {}
  }

  ghost function MembersBelow(w: World, below: Below, file: string, members: seq<Member>): (r: set<Site>)
    ensures forall m :: m in members ==> MemberBelow(w, below, file, m) <= r
  {
    if members == [] then {} else MemberBelow(w, below, file, members[0]) + MembersBelow(w, below, file, members[1..])
  }

  ghost function BaseBelow(w: World, below: Below, file: string, base: Base): set<Site> {
    if base.Named? then NameBelow(w, below, file, base.name) else {}
  }

  ghost function BasesBelow(w: World, below: Below, file: string, bases: seq<Base>): set<Site> {
    if bases == [] then {} else BaseBelow(w, below, file, bases[0]) + BasesBelow(w, below, file, bases[1..])
  }

  // No two types or bases of one list lead to a common declaration.
  ghost predicate ApartAll(w: World, below: Below, file: string, types: seq<TypeNode>) {
    types == [] ||
    (&& ApartType(w, below, file, types[0]) && ApartAll(w, below, file, types[1..])
     && TypeBelow(w, below, file, types[0]) !! AllBelow(w, below, file, types[1..]))
  }

  ghost predicate ApartType(w: World, below: Below, file: string, node: TypeNode) {
    match node
    case Literal(members) => forall m :: m in members ==> ApartMember(w, below, file, m)
    case Paren(inner) => ApartType(w, below, file, inner)
    case Operator(_, inner) => ApartType(w, below, file, inner)
    case Intersection(parts) => ApartAll(w, below, file, parts)
    case Union(first, rest) =>
      && ApartType(w, below, file, first) && ApartAll(w, below, file, rest)
      && TypeBelow(w, below, file, first) !! AllBelow(w, below, file, rest)
    case ArrayOf(element) => ApartType(w, below, file, element)
    case Indexed(container, _) => ApartType(w, below, file, container)
    case Reference(_, _, args) => args != [] ==> ApartType(w, below, file, args[0])
    case _ => true
  }

  ghost predicate ApartMember(w: World, below: Below, file: string, m: Member) {
    m.Property? && m.declared.Some? ==> ApartType(w, below, file, m.declared.value)
  }

  ghost predicate ApartBases(w: World, below: Below, file: string, bases: seq<Base>) {
    bases == [] ||
    (ApartBases(w, below, file, bases[1..])
        && BaseBelow(w, below, file, bases[0]) !! BasesBelow(w, below, file, bases[1..]))
  }

  ghost function DeclBelow(w: World, below: Below, site: Site): set<Site>
    requires site in w.decls
  {
    match w.decls[site]
    case Interface(members, bases) =>
      MembersBelow(w, below, site.file, members) + BasesBelow(w, below, site.file, bases)
    case Alias(body) => TypeBelow(w, below, site.file, body)
    case Enum => {}
  }

  ghost predicate ApartDecl(w: World, below: Below, site: Site)
    requires site in w.decls
  {
    match w.decls[site]
    case Interface(members, bases) =>
      (forall m :: m in members ==> ApartMember(w, below, site.file, m)) && ApartBases(w, below, site.file, bases)
    case Alias(body) => ApartType(w, below, site.file, body)
    case Enum => true
  }

  // The references among the declarations form a forest.
  ghost predicate IsForest(w: World, below: Below) {
    && below.Keys == w.decls.Keys
    && forall site {:trigger IsTree(w, below, site)} :: site in w.decls ==> IsTree(w, below, site)
  }

  ghost predicate IsTree(w: World, below: Below, site: Site) {
    && site in w.decls && site in below && below[site] == {site} + DeclBelow(w, below, site)
    && site !in DeclBelow(w, below, site) && ApartDecl(w, below, site)
  }

  // ---- The lookup is exact ----

  ghost predicate Exact(a: Answer, has: bool, lacks: bool) {
    (a == Found <==> has) && (a == Missing <==> lacks)
  }

  ghost predicate Fresh(seen: set<Visit>, sites: set<Site>) {
    forall v :: v in seen ==> v.site !in sites
  }

  ghost predicate Adds(seen: set<Visit>, more: set<Visit>, sites: set<Site>) {
    forall v :: v in more ==> v in seen || v.site in sites
  }

  ghost predicate DeclIsExact(w: World, site: Site, steps: seq<PathStep>, a: Answer) {
    Exact(a, HasDecl(w, site, steps), LacksDecl(w, site, steps))
  }

  ghost predicate AmongIsExact(w: World, file: string, members: seq<Member>, bases: seq<Base>, steps: seq<PathStep>,
                               a: Answer)
  {
    Exact(a, HasAmong(w, true, Place(file, members), PlaceBases(file, bases), steps),
          LacksAmong(w, Place(file, members), PlaceBases(file, bases), steps))
  }

  lemma {:induction false} DeclExact(w: World, below: Below, site: Site, steps: seq<PathStep>, seen: set<Visit>,
                                     fuel: nat)
    requires PlainWorld(w) && IsForest(w, below) && site in w.decls && Fresh(seen, below[site])
    requires LookupDecl(w, site, steps, seen, fuel).Done?
    ensures var r := LookupDecl(w, site, steps, seen, fuel);
      DeclIsExact(w, site, steps, r.value) && Adds(seen, r.seen, below[site])
    decreases fuel, 0
  {
    assert IsTree(w, below, site);
    var visit := Visit(site, |steps|);
    assert visit !in seen;
    if steps != [] {
      match w.decls[site]
      case Interface(_, _) => InterfaceExact(w, below, site, steps, seen, fuel);
      case Alias(body) => TypeExact(w, below, site.file, body, steps, seen + {visit}, fuel - 1);
      case Enum =>
    }
  }

  lemma {:induction false} InterfaceExact(w: World, below: Below, site: Site, steps: seq<PathStep>, seen: set<Visit>,
                                          fuel: nat)
    requires PlainWorld(w) && IsForest(w, below) && IsInterface(w, site) && steps != [] && Fresh(seen, below[site])
    requires LookupDecl(w, site, steps, seen, fuel).Done?
    ensures var r := LookupDecl(w, site, steps, seen, fuel);
      DeclIsExact(w, site, steps, r.value) && Adds(seen, r.seen, below[site])
    decreases fuel, 0, 0
  {
    assert IsTree(w, below, site);
    assert Visit(site, |steps|) !in seen;
    if steps[0].Named? {
      var Interface(members, bases) := w.decls[site];
      var more := seen + {Visit(site, |steps|)};
      FreshInside(w, below, site, members, bases, seen, |steps|);
      AmongExact(w, below, site.file, members, bases, steps, more, fuel - 1);
      InterfaceIsAmong(w, site, steps, LookupAmong(w, site.file, members, bases, steps, more, fuel - 1).value);
    }
  }

  lemma FreshInside(w: World, below: Below, site: Site, members: seq<Member>, bases: seq<Base>, seen: set<Visit>,
                    left: nat)
    requires IsTree(w, below, site) && w.decls[site] == Interface(members, bases) && Fresh(seen, below[site])
    ensures Fresh(seen + {Visit(site, left)}, MembersBelow(w, below, site.file, members))
    ensures Fresh(seen + {Visit(site, left)}, BasesBelow(w, below, site.file, bases))
  {
  }

  lemma InterfaceIsAmong(w: World, site: Site, steps: seq<PathStep>, a: Answer)
    requires w.merged == map[] && IsInterface(w, site) && steps != [] && steps[0].Named?
    requires AmongIsExact(w, site.file, w.decls[site].members, w.decls[site].bases, steps, a)
    ensures DeclIsExact(w, site, steps, a)
  {
    OneInterface(w, site);
  }

  lemma {:induction false} AmongExact(w: World, below: Below, file: string, members: seq<Member>, bases: seq<Base>,
                                      steps: seq<PathStep>, seen: set<Visit>, fuel: nat)
    requires PlainWorld(w) && IsForest(w, below) && PlainMembers(w, file, members) && steps != [] && steps[0].Named?
    requires (forall m :: m in members ==> ApartMember(w, below, file, m)) && ApartBases(w, below, file, bases)
    requires Fresh(seen, MembersBelow(w, below, file, members)) && Fresh(seen, BasesBelow(w, below, file, bases))
    requires LookupAmong(w, file, members, bases, steps, seen, fuel).Done?
    ensures var r := LookupAmong(w, file, members, bases, steps, seen, fuel);
      && AmongIsExact(w, file, members, bases, steps, r.value)
      && Adds(seen, r.seen, MembersBelow(w, below, file, members) + BasesBelow(w, below, file, bases))
    decreases fuel, 2, members, 0
  {
    if FindProperty(members, steps[0].member).Some? {
      MemberExact(w, below, file, members, PlaceBases(file, bases), steps, seen, fuel);
    } else {
      BasesExact(w, below, file, bases, steps, seen, fuel);
      NoMemberExact(w, file, members, bases, steps, LookupBases(w, file, bases, steps, seen, fuel).value);
    }
  }

  // A plain list with a property of the name is decided by that property alone.
  lemma {:induction false} MemberExact(w: World, below: Below, file: string, members: seq<Member>,
                                       bases: seq<PlacedBase>, steps: seq<PathStep>, seen: set<Visit>, fuel: nat)
    requires PlainWorld(w) && IsForest(w, below) && PlainMembers(w, file, members) && steps != [] && steps[0].Named?
    requires FindProperty(members, steps[0].member).Some?
    requires forall m :: m in members ==> ApartMember(w, below, file, m)
    requires Fresh(seen, MembersBelow(w, below, file, members))
    requires LookupProperty(w, file, FindProperty(members, steps[0].member).value, steps, seen, fuel).Done?
    ensures var r := LookupProperty(w, file, FindProperty(members, steps[0].member).value, steps, seen, fuel);
      && Exact(r.value, HasAmong(w, true, Place(file, members), bases, steps),
               LacksAmong(w, Place(file, members), bases, steps))
      && Adds(seen, r.seen, MembersBelow(w, below, file, members))
    decreases fuel, 2, members, 0, 0
  {
    var direct := FindProperty(members, steps[0].member).value;
    assert PlainMember(w, file, direct) && ApartMember(w, below, file, direct);
    assert MemberBelow(w, below, file, direct) <= MembersBelow(w, below, file, members);
    if |steps| > 1 && direct.declared.Some? {
      TypeExact(w, below, file, direct.declared.value, steps[1..], seen, fuel);
    }
    DirectDecides(w, file, members, bases, steps);
  }

  lemma DirectDecides(w: World, file: string, members: seq<Member>, bases: seq<PlacedBase>, steps: seq<PathStep>)
    requires PlainMembers(w, file, members) && steps != [] && steps[0].Named?
    requires FindProperty(members, steps[0].member).Some?
    ensures var direct := FindProperty(members, steps[0].member).value;
      && (HasAmong(w, true, Place(file, members), bases, steps) <==> HasRest(w, file, direct, steps))
      && (LacksAmong(w, Place(file, members), bases, steps) <==> LacksRest(w, file, direct, steps))
  {
    var all, name := Place(file, members), steps[0].member;
    var q := PlacedMember(file, FindProperty(members, name).value);
    PlainDirect(w, file, members, name);
    assert q in all && Governs(w, all, q, name);
    forall q' | Governs(w, all, q', name) ensures q' == q {
      PlainConsults(w, file, members, q', name);
    }
  }

  // Without one the bases decide.
  lemma NoMemberExact(w: World, file: string, members: seq<Member>, bases: seq<Base>, steps: seq<PathStep>,
                      answers: seq<Answer>)
    requires PlainMembers(w, file, members) && steps != [] && steps[0].Named?
    requires FindProperty(members, steps[0].member).None? && |answers| == |bases|
    requires forall i :: 0 <= i < |bases| ==> BaseIsExact(w, file, bases[i], steps, answers[i])
    ensures Exact(Combine(answers), HasAmong(w, true, Place(file, members), PlaceBases(file, bases), steps),
                  LacksAmong(w, Place(file, members), PlaceBases(file, bases), steps))
  {
    var all, name, placed := Place(file, members), steps[0].member, PlaceBases(file, bases);
    PlainDirect(w, file, members, name);
    forall q ensures !Governs(w, all, q, name) {
      if q in all { assert PlainMember(w, file, q.member); }
    }
    BasesDecide(w, file, bases, steps, answers);
  }

  ghost predicate BaseIsExact(w: World, file: string, base: Base, steps: seq<PathStep>, a: Answer) {
    Exact(a, HasBase(w, PlacedBase(file, base), steps), LacksBase(w, PlacedBase(file, base), steps))
  }

  lemma BasesDecide(w: World, file: string, bases: seq<Base>, steps: seq<PathStep>, answers: seq<Answer>)
    requires |answers| == |bases| && forall i :: 0 <= i < |bases| ==> BaseIsExact(w, file, bases[i], steps, answers[i])
    ensures Combine(answers) == Found <==> exists b :: b in PlaceBases(file, bases) && HasBase(w, b, steps)
    ensures Combine(answers) == Missing <==> forall b :: b in PlaceBases(file, bases) ==> LacksBase(w, b, steps)
  {
    if b :| b in PlaceBases(file, bases) && HasBase(w, b, steps) {
      var i := IndexOfBase(file, bases, b);
      assert BaseIsExact(w, file, bases[i], steps, answers[i]) && answers[i] in answers;
    }
    if b :| b in PlaceBases(file, bases) && !LacksBase(w, b, steps) {
      var i := IndexOfBase(file, bases, b);
      assert BaseIsExact(w, file, bases[i], steps, answers[i]) && answers[i] in answers;
    }
    forall a | a in answers
      ensures a == Found ==> exists b :: b in PlaceBases(file, bases) && HasBase(w, b, steps)
      ensures a != Missing ==> exists b :: b in PlaceBases(file, bases) && !LacksBase(w, b, steps)
    {
      var i :| 0 <= i < |bases| && answers[i] == a;
      assert BaseIsExact(w, file, bases[i], steps, answers[i]) && PlacedBase(file, bases[i]) in PlaceBases(file, bases);
    }
  }

  lemma IndexOfBase(file: string, bases: seq<Base>, b: PlacedBase) returns (i: nat)
    requires b in PlaceBases(file, bases)
    ensures i < |bases| && b == PlacedBase(file, bases[i])
  {
    i :| i < |bases| && bases[i] == b.base;
  }

  lemma {:induction false} BasesExact(w: World, below: Below, file: string, bases: seq<Base>, steps: seq<PathStep>,
                                      seen: set<Visit>, fuel: nat)
    requires PlainWorld(w) && IsForest(w, below) && ApartBases(w, below, file, bases)
    requires Fresh(seen, BasesBelow(w, below, file, bases)) && LookupBases(w, file, bases, steps, seen, fuel).Done?
    ensures var r := LookupBases(w, file, bases, steps, seen, fuel);
      && (forall i :: 0 <= i < |bases| ==> BaseIsExact(w, file, bases[i], steps, r.value[i]))
      && Adds(seen, r.seen, BasesBelow(w, below, file, bases))
    decreases fuel, 1, bases
  {
    if bases != [] {
      NameExact(w, below, file, bases[0], steps, seen, fuel);
      BasesExact(w, below, file, bases[1..], steps, LookupBase(w, file, bases[0], steps, seen, fuel).seen, fuel);
    }
  }

  lemma {:induction false} NameExact(w: World, below: Below, file: string, base: Base, steps: seq<PathStep>,
                                     seen: set<Visit>, fuel: nat)
    requires PlainWorld(w) && IsForest(w, below)
    requires Fresh(seen, BaseBelow(w, below, file, base)) && LookupBase(w, file, base, steps, seen, fuel).Done?
    ensures var r := LookupBase(w, file, base, steps, seen, fuel);
      BaseIsExact(w, file, base, steps, r.value) && Adds(seen, r.seen, BaseBelow(w, below, file, base))
    decreases fuel, 1, base
  {
    if base.Named? && DeclForTypeName(w, file, base.name).Some? {
      DeclExact(w, below, DeclForTypeName(w, file, base.name).value, steps, seen, fuel);
    }
  }

  ghost predicate TypeIsExact(w: World, file: string, node: TypeNode, steps: seq<PathStep>, a: Answer) {
    Exact(a, HasType(w, file, node, steps), LacksType(w, file, node, steps))
  }

  lemma {:induction false} AllExact(w: World, below: Below, file: string, types: seq<TypeNode>, steps: seq<PathStep>,
                                    seen: set<Visit>, fuel: nat)
    requires PlainWorld(w) && IsForest(w, below) && forall p :: p in types ==> PlainType(w, file, p)
    requires ApartAll(w, below, file, types) && Fresh(seen, AllBelow(w, below, file, types))
    requires LookupAll(w, file, types, steps, seen, fuel).Done?
    ensures var r := LookupAll(w, file, types, steps, seen, fuel);
      && (forall i :: 0 <= i < |types| ==> TypeIsExact(w, file, types[i], steps, r.value[i]))
      && Adds(seen, r.seen, AllBelow(w, below, file, types))
    decreases fuel, 2, types
  {
    if types != [] {
      TypeExact(w, below, file, types[0], steps, seen, fuel);
      AllExact(w, below, file, types[1..], steps, LookupType(w, file, types[0], steps, seen, fuel).seen, fuel);
    }
  }

  lemma PartsDecide(w: World, file: string, parts: seq<TypeNode>, steps: seq<PathStep>, answers: seq<Answer>)
    requires |answers| == |parts|
    requires forall i :: 0 <= i < |parts| ==> TypeIsExact(w, file, parts[i], steps, answers[i])
    ensures Combine(answers) == Found <==> exists p :: p in parts && HasType(w, file, p, steps)
    ensures Combine(answers) == Missing <==> forall p :: p in parts ==> LacksType(w, file, p, steps)
  {
    if p :| p in parts && HasType(w, file, p, steps) {
      var i :| 0 <= i < |parts| && parts[i] == p;
      assert TypeIsExact(w, file, parts[i], steps, answers[i]) && answers[i] in answers;
    }
    if p :| p in parts && !LacksType(w, file, p, steps) {
      var i :| 0 <= i < |parts| && parts[i] == p;
      assert TypeIsExact(w, file, parts[i], steps, answers[i]) && answers[i] in answers;
    }
    forall a | a in answers
      ensures a == Found ==> exists p :: p in parts && HasType(w, file, p, steps)
      ensures a != Missing ==> exists p :: p in parts && !LacksType(w, file, p, steps)
    {
      var i :| 0 <= i < |parts| && answers[i] == a;
      assert TypeIsExact(w, file, parts[i], steps, answers[i]) && parts[i] in parts;
    }
  }

  lemma BranchesDecide(w: World, file: string, branches: seq<TypeNode>, steps: seq<PathStep>, answers: seq<Answer>)
    requires |answers| == |branches| > 0
    requires forall i :: 0 <= i < |branches| ==> TypeIsExact(w, file, branches[i], steps, answers[i])
    ensures Agree(answers) == Found <==> forall p :: p in branches ==> HasType(w, file, p, steps)
    ensures Agree(answers) == Missing <==> forall p :: p in branches ==> LacksType(w, file, p, steps)
  {
    assert answers[0] in answers;
    forall p | p in branches
      ensures Agree(answers) == Found ==> HasType(w, file, p, steps)
      ensures Agree(answers) == Missing ==> LacksType(w, file, p, steps)
    {
      var i :| 0 <= i < |branches| && branches[i] == p;
      assert TypeIsExact(w, file, branches[i], steps, answers[i]) && answers[i] in answers;
    }
    forall a | a in answers
      ensures a != Found ==> exists p :: p in branches && !HasType(w, file, p, steps)
      ensures a != Missing ==> exists p :: p in branches && !LacksType(w, file, p, steps)
    {
      var i :| 0 <= i < |branches| && answers[i] == a;
      assert TypeIsExact(w, file, branches[i], steps, answers[i]) && branches[i] in branches;
    }
  }

  lemma {:induction false} TypeExact(w: World, below: Below, file: string, node: TypeNode, steps: seq<PathStep>,
                                     seen: set<Visit>, fuel: nat)
    requires PlainWorld(w) && IsForest(w, below) && PlainType(w, file, node) && ApartType(w, below, file, node)
    requires Fresh(seen, TypeBelow(w, below, file, node)) && LookupType(w, file, node, steps, seen, fuel).Done?
    ensures var r := LookupType(w, file, node, steps, seen, fuel);
      && TypeIsExact(w, file, node, steps, r.value)
      && Adds(seen, r.seen, TypeBelow(w, below, file, node))
    decreases fuel, 2, node
  {
    if steps != [] {
      match node
      case Literal(_) => LiteralExact(w, below, file, node, steps, seen, fuel);
      case Paren(inner) => TypeExact(w, below, file, inner, steps, seen, fuel);
      case Operator(_, inner) => TypeExact(w, below, file, inner, steps, seen, fuel);
      case Intersection(_) => IntersectionExact(w, below, file, node, steps, seen, fuel);
      case Union(_, _) => UnionExact(w, below, file, node, steps, seen, fuel);
      case ArrayOf(element) =>
        if steps[0].Element? { TypeExact(w, below, file, element, steps[1..], seen, fuel); }
      case Indexed(container, key) =>
        if key.Some? { TypeExact(w, below, file, container, [PathStep.Named(key.value)] + steps, seen, fuel); }
      case Reference(_, _, _) => ReferenceExact(w, below, file, node, steps, seen, fuel);
      case Parameter(_) =>
      case OtherType =>
    }
  }

  lemma {:induction false} LiteralExact(w: World, below: Below, file: string, node: TypeNode, steps: seq<PathStep>,
                                        seen: set<Visit>, fuel: nat)
    requires PlainWorld(w) && IsForest(w, below) && PlainType(w, file, node) && ApartType(w, below, file, node)
    requires node.Literal? && steps != []
    requires Fresh(seen, TypeBelow(w, below, file, node)) && LookupType(w, file, node, steps, seen, fuel).Done?
    ensures var r := LookupType(w, file, node, steps, seen, fuel);
      TypeIsExact(w, file, node, steps, r.value) && Adds(seen, r.seen, TypeBelow(w, below, file, node))
    decreases fuel, 2, node, 0
  {
    if steps[0].Named? {
      assert LookupBases(w, file, [], steps, seen, fuel) == Done([], seen);
      AmongExact(w, below, file, node.members, [], steps, seen, fuel);
      LiteralDecides(w, file, node.members, steps, LookupAmong(w, file, node.members, [], steps, seen, fuel).value);
    }
  }

  lemma {:induction false} IntersectionExact(w: World, below: Below, file: string, node: TypeNode, steps: seq<PathStep>,
                                             seen: set<Visit>, fuel: nat)
    requires PlainWorld(w) && IsForest(w, below) && PlainType(w, file, node) && ApartType(w, below, file, node)
    requires node.Intersection? && steps != []
    requires Fresh(seen, TypeBelow(w, below, file, node)) && LookupType(w, file, node, steps, seen, fuel).Done?
    ensures var r := LookupType(w, file, node, steps, seen, fuel);
      TypeIsExact(w, file, node, steps, r.value) && Adds(seen, r.seen, TypeBelow(w, below, file, node))
    decreases fuel, 2, node, 0
  {
    AllExact(w, below, file, node.parts, steps, seen, fuel);
    IntersectionDecides(w, file, node.parts, steps, LookupAll(w, file, node.parts, steps, seen, fuel).value);
  }

  lemma {:induction false} UnionExact(w: World, below: Below, file: string, node: TypeNode, steps: seq<PathStep>,
                                      seen: set<Visit>, fuel: nat)
    requires PlainWorld(w) && IsForest(w, below) && PlainType(w, file, node) && ApartType(w, below, file, node)
    requires node.Union? && steps != []
    requires Fresh(seen, TypeBelow(w, below, file, node)) && LookupType(w, file, node, steps, seen, fuel).Done?
    ensures var r := LookupType(w, file, node, steps, seen, fuel);
      TypeIsExact(w, file, node, steps, r.value) && Adds(seen, r.seen, TypeBelow(w, below, file, node))
    decreases fuel, 2, node, 0
  {
    var first, rest := node.first, node.rest;
    TypeExact(w, below, file, first, steps, seen, fuel);
    var head := LookupType(w, file, first, steps, seen, fuel);
    AllExact(w, below, file, rest, steps, head.seen, fuel);
    UnionDecides(w, file, first, rest, steps, head.value, LookupAll(w, file, rest, steps, head.seen, fuel).value);
  }

  lemma UnionDecides(w: World, file: string, first: TypeNode, rest: seq<TypeNode>, steps: seq<PathStep>, head: Answer,
                     tail: seq<Answer>)
    requires steps != [] && TypeIsExact(w, file, first, steps, head) && |tail| == |rest|
    requires forall i :: 0 <= i < |rest| ==> TypeIsExact(w, file, rest[i], steps, tail[i])
    ensures TypeIsExact(w, file, Union(first, rest), steps, Agree([head] + tail))
  {
    var answers := [head] + tail;
    forall i | 0 <= i < |answers| ensures TypeIsExact(w, file, ([first] + rest)[i], steps, answers[i]) {
      if i > 0 { assert TypeIsExact(w, file, rest[i - 1], steps, tail[i - 1]); }
    }
    BranchesDecide(w, file, [first] + rest, steps, answers);
    UnionHas(w, file, first, rest, steps);
  }

  lemma IntersectionDecides(w: World, file: string, parts: seq<TypeNode>, steps: seq<PathStep>, answers: seq<Answer>)
    requires steps != [] && |answers| == |parts|
    requires forall i :: 0 <= i < |parts| ==> TypeIsExact(w, file, parts[i], steps, answers[i])
    ensures TypeIsExact(w, file, Intersection(parts), steps, Combine(answers))
  {
    PartsDecide(w, file, parts, steps, answers);
  }

  lemma LiteralDecides(w: World, file: string, members: seq<Member>, steps: seq<PathStep>, a: Answer)
    requires steps != [] && steps[0].Named? && AmongIsExact(w, file, members, [], steps, a)
    ensures TypeIsExact(w, file, Literal(members), steps, a)
  {
    assert PlaceBases(file, []) == [];
  }

  lemma UnionHas(w: World, file: string, first: TypeNode, rest: seq<TypeNode>, steps: seq<PathStep>)
    requires steps != []
    ensures HasType(w, file, Union(first, rest), steps)
            <==> forall p :: p in [first] + rest ==> HasType(w, file, p, steps)
    ensures LacksType(w, file, Union(first, rest), steps)
       <==> forall p :: p in [first] + rest ==> LacksType(w, file, p, steps)
  {
    assert first in [first] + rest;
    forall p | p in rest ensures p in [first] + rest {
      var i :| 0 <= i < |rest| && rest[i] == p;
      assert ([first] + rest)[i + 1] == p;
    }
  }

  lemma {:induction false} ReferenceExact(w: World, below: Below, file: string, node: TypeNode, steps: seq<PathStep>,
                                          seen: set<Visit>, fuel: nat)
    requires PlainWorld(w) && IsForest(w, below) && PlainType(w, file, node) && ApartType(w, below, file, node)
    requires node.Reference? && steps != []
    requires Fresh(seen, TypeBelow(w, below, file, node)) && LookupType(w, file, node, steps, seen, fuel).Done?
    ensures var r := LookupType(w, file, node, steps, seen, fuel);
      TypeIsExact(w, file, node, steps, r.value) && Adds(seen, r.seen, TypeBelow(w, below, file, node))
    decreases fuel, 2, node, 0
  {
    var Reference(head, qualified, args) := node;
    if IsPassthrough(head) && args != [] {
      TypeExact(w, below, file, args[0], steps, seen, fuel);
    } else if IsArrayName(head) && args != [] {
      if steps[0].Element? { TypeExact(w, below, file, args[0], steps[1..], seen, fuel); }
    } else if !qualified && DeclForTypeName(w, file, head).Some? {
      DeclExact(w, below, DeclForTypeName(w, file, head).value, steps, seen, fuel);
    }
  }

  // On plain declarations whose references form a forest the three answers mean: has the path,
  // definitely lacks it, neither.
  lemma LookupIsExact(w: World, below: Below, site: Site, steps: seq<PathStep>, fuel: nat)
    requires PlainWorld(w) && IsForest(w, below) && site in w.decls && LookupDecl(w, site, steps, {}, fuel).Done?
    ensures var answer := LookupDecl(w, site, steps, {}, fuel).value;
      && (answer == Found <==> HasDecl(w, site, steps))
      && (answer == Missing <==> LacksDecl(w, site, steps))
      && (answer == Unknown <==> !HasDecl(w, site, steps) && !LacksDecl(w, site, steps))
  {
    DeclExact(w, below, site, steps, {}, fuel);
  }

  // ---- A base in another file ----

  // index.ts has `interface Config extends Base {}` and imports Base, which declares a, from base.ts.
  function ImportedBase(): World {
    World(map[Site("index.ts", "Config") := Interface([], [Base.Named("Base")]),
              Site("base.ts", "Base") := Interface([Property("a", "a", None)], [])],
          map[Site("index.ts", "Base") := Site("base.ts", "Base")], map[], (pattern, key) => false)
  }

  lemma ImportedBaseIsRead(key: string, fuel: nat)
    requires fuel > 1
    ensures var r := LookupDecl(ImportedBase(), Site("index.ts", "Config"), [PathStep.Named(key)], {}, fuel);
      r.Done? && r.value == if key == "a" then Found else Missing
  {
    var w, steps, base := ImportedBase(), [PathStep.Named(key)], Site("base.ts", "Base");
    var seen := {} + {Visit(Site("index.ts", "Config"), 1)};
    assert LookupBases(w, "base.ts", [], steps, seen + {Visit(base, 1)}, fuel - 2) == Done([], seen + {Visit(base, 1)});
    assert FindProperty(w.decls[base].members, key) == if key == "a" then Some(Property("a", "a", None)) else None;
    OneBase(w, "index.ts", base, steps, seen, fuel - 1);
  }

  lemma OneBase(w: World, file: string, site: Site, steps: seq<PathStep>, seen: set<Visit>, fuel: nat)
    requires Site(file, "Base") in w.resolved && w.resolved[Site(file, "Base")] == site && site in w.decls
    requires LookupDecl(w, site, steps, seen, fuel).Done?
    ensures var r := LookupDecl(w, site, steps, seen, fuel);
      LookupBases(w, file, [Base.Named("Base")], steps, seen, fuel) == Done([r.value] + [], r.seen)
  {
    var bases := [Base.Named("Base")];
    assert bases[0] == Base.Named("Base") && bases[1..] == [];
    var r := LookupDecl(w, site, steps, seen, fuel);
    assert LookupBase(w, file, bases[0], steps, seen, fuel) == r;
    assert LookupBases(w, file, [], steps, r.seen, fuel) == Done([], r.seen);
  }
}
