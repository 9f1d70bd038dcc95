// Where being misled makes found wrong: on declarations that offer a path in one place only.
module ConfigStraight {
  import opened ConfigTypes
  import opened ConfigLookup
  import opened ConfigPresence
  import opened ConfigLookupProofs

  // No intersection, no index signature, no key declared twice in a list.
  ghost predicate StraightType(node: TypeNode) {
    match node
    case Literal(members) => StraightMembers(members)
    case Paren(inner) => StraightType(inner)
    case Operator(_, inner) => StraightType(inner)
    case Intersection(_) => false
    case Union(first, rest) => StraightType(first) && forall p :: p in rest ==> StraightType(p)
    case ArrayOf(element) => StraightType(element)
    case Indexed(container, _) => StraightType(container)
    case Reference(_, _, args) => forall a :: a in args ==> StraightType(a)
    case _ => true
  }

  ghost predicate StraightMember(m: Member) {
    !m.Index? && (m.Property? && m.declared.Some? ==> StraightType(m.declared.value))
  }

  ghost predicate StraightMembers(members: seq<Member>) {
    && (forall m :: m in members ==> StraightMember(m))
    && forall m, n, key :: m in members && n in members && IsNamed(m, key) && IsNamed(n, key) ==> m == n
  }

  // And one declaration for each name, with at most one base.
  ghost predicate StraightWorld(w: World) {
    && w.merged == map[]
    && forall site :: site in w.decls ==>
         match w.decls[site]
         case Interface(members, bases) => StraightMembers(members) && |bases| <= 1
         case Alias(body) => StraightType(body)
         case Enum => true
  }

  lemma {:induction false} DeclMisled(w: World, site: Site, steps: seq<PathStep>, seen: set<Visit>, fuel: nat)
    requires StraightWorld(w) && site in w.decls && IsFound(LookupDecl(w, site, steps, seen, fuel))
    ensures MisleadsDecl(w, site, steps) ==> !HasDecl(w, site, steps)
    decreases fuel, 0
  {
    if steps != [] {
      var more := seen + {Visit(site, |steps|)};
      match w.decls[site]
      case Interface(members, bases) =>
        OneInterface(w, site);
        AmongMisled(w, site.file, members, bases, steps, more, fuel - 1);
      case Alias(body) => TypeMisled(w, site.file, body, steps, more, fuel - 1);
    }
  }

  lemma {:induction false} AmongMisled(w: World, file: string, members: seq<Member>, bases: seq<Base>,
                                       steps: seq<PathStep>, seen: set<Visit>, fuel: nat)
    requires StraightWorld(w) && StraightMembers(members) && |bases| <= 1 && steps != [] && steps[0].Named?
    requires IsFound(LookupAmong(w, file, members, bases, steps, seen, fuel))
    ensures var all, placed := Place(file, members), PlaceBases(file, bases);
      MisleadsAmong(w, file, members, bases, true, all, placed, steps) ==> !HasAmong(w, true, all, placed, steps)
    decreases fuel, 2, members
  {
    match FindProperty(members, steps[0].member)
    case Some(direct) =>
      if direct.key == steps[0].member {
        PropertyMisled(w, file, direct, steps, seen, fuel);
        OnlyOneGoverns(w, file, members, direct, steps[0].member);
      }
    case None =>
      NothingGoverns(w, file, members, steps[0].member);
      if bases != [] { BaseMisled(w, file, bases[0], steps, seen, fuel); }
      OneBaseFound(w, file, bases, steps, seen, fuel);
  }

  lemma OnlyOneGoverns(w: World, file: string, members: seq<Member>, direct: Member, name: string)
    requires StraightMembers(members) && direct in members && IsNamed(direct, name)
    ensures SomeNamed(Place(file, members), name)
    ensures forall q :: Governs(w, Place(file, members), q, name) <==> q == PlacedMember(file, direct)
  {
    assert PlacedMember(file, direct) in Place(file, members);
  }

  lemma NothingGoverns(w: World, file: string, members: seq<Member>, name: string)
    requires StraightMembers(members)
    ensures !SomeNamed(Place(file, members), name) ==> forall q :: !Governs(w, Place(file, members), q, name)
  {
    forall q | q in Place(file, members) ensures !q.member.Index? { assert StraightMember(q.member); }
  }

  // The one base is the one that was found.
  lemma OneBaseFound(w: World, file: string, bases: seq<Base>, steps: seq<PathStep>, seen: set<Visit>, fuel: nat)
    requires |bases| <= 1
    ensures var r := LookupBases(w, file, bases, steps, seen, fuel);
      r.Done? && Found in r.value ==> bases != [] && IsFound(LookupBase(w, file, bases[0], steps, seen, fuel))
    ensures forall b :: b in PlaceBases(file, bases) ==> bases != [] && b == PlacedBase(file, bases[0])
  {
    if bases != [] { assert bases[1..] == []; }
  }

  lemma {:induction false} BaseMisled(w: World, file: string, base: Base, steps: seq<PathStep>, seen: set<Visit>,
                                      fuel: nat)
    requires StraightWorld(w)
    ensures var b := PlacedBase(file, base);
      IsFound(LookupBase(w, file, base, steps, seen, fuel)) && MisleadsBase(w, b, steps) ==> !HasBase(w, b, steps)
    decreases fuel, 1, base
  {
    if IsFound(LookupBase(w, file, base, steps, seen, fuel)) {
      DeclMisled(w, DeclForTypeName(w, file, base.name).value, steps, seen, fuel);
    }
  }

  lemma {:induction false} PropertyMisled(w: World, file: string, m: Member, steps: seq<PathStep>, seen: set<Visit>,
                                          fuel: nat)
    requires StraightWorld(w) && m.Property? && StraightMember(m) && steps != []
    requires IsFound(LookupProperty(w, file, m, steps, seen, fuel))
    ensures MisleadsRest(w, file, m, steps) ==> !HasRest(w, file, m, steps)
    decreases fuel, 2, m
  {
    if |steps| > 1 { TypeMisled(w, file, m.declared.value, steps[1..], seen, fuel); }
  }

  lemma {:induction false} EachMisled(w: World, file: string, types: seq<TypeNode>, steps: seq<PathStep>,
                                      seen: set<Visit>, fuel: nat)
    requires StraightWorld(w) && forall p :: p in types ==> StraightType(p)
    requires var r := LookupAll(w, file, types, steps, seen, fuel); r.Done? && forall a :: a in r.value ==> a == Found
    ensures forall p :: p in types && MisleadsType(w, file, p, steps) ==> !HasType(w, file, p, steps)
    decreases fuel, 2, types
  {
    if types != [] {
      var r := LookupAll(w, file, types, steps, seen, fuel);
      assert r.value[0] in r.value;
      assert forall a :: a in r.value[1..] ==> a in r.value;
      TypeMisled(w, file, types[0], steps, seen, fuel);
      EachMisled(w, file, types[1..], steps, LookupType(w, file, types[0], steps, seen, fuel).seen, fuel);
    }
  }

  lemma {:induction false} UnionMisled(w: World, file: string, node: TypeNode, steps: seq<PathStep>, seen: set<Visit>,
                                       fuel: nat)
    requires StraightWorld(w) && StraightType(node) && node.Union? && steps != []
    requires IsFound(LookupType(w, file, node, steps, seen, fuel))
    ensures MisleadsType(w, file, node, steps) ==> !HasType(w, file, node, steps)
    decreases fuel, 2, node, 0
  {
    var head := LookupType(w, file, node.first, steps, seen, fuel);
    var tail := LookupAll(w, file, node.rest, steps, head.seen, fuel);
    var answers := [head.value] + tail.value;
    assert answers[0] in answers;
    assert forall a :: a in tail.value ==> a in answers;
    TypeMisled(w, file, node.first, steps, seen, fuel);
    EachMisled(w, file, node.rest, steps, head.seen, fuel);
  }

  lemma {:induction false} TypeMisled(w: World, file: string, node: TypeNode, steps: seq<PathStep>, seen: set<Visit>,
                                      fuel: nat)
    requires StraightWorld(w) && StraightType(node) && IsFound(LookupType(w, file, node, steps, seen, fuel))
    ensures MisleadsType(w, file, node, steps) ==> !HasType(w, file, node, steps)
    decreases fuel, 2, node
  {
    if steps != [] && !Misread(w, file, node) {
      match node
      case Literal(members) =>
        assert LookupBases(w, file, [], steps, seen, fuel) == Done([], seen);
        AmongMisled(w, file, members, [], steps, seen, fuel);
      case Paren(inner) => TypeMisled(w, file, inner, steps, seen, fuel);
      case Operator(_, inner) => TypeMisled(w, file, inner, steps, seen, fuel);
      case Union(_, _) => UnionMisled(w, file, node, steps, seen, fuel);
      case ArrayOf(element) => TypeMisled(w, file, element, steps[1..], seen, fuel);
      case Indexed(container, key) => TypeMisled(w, file, container, [PathStep.Named(key.value)] + steps, seen, fuel);
      case Reference(head, _, args) =>
        if IsPassthrough(head) && args != [] {
          TypeMisled(w, file, args[0], steps, seen, fuel);
        } else if IsArrayName(head) && args != [] {
          TypeMisled(w, file, args[0], steps[1..], seen, fuel);
        } else {
          DeclMisled(w, DeclForTypeName(w, file, head).value, steps, seen, fuel);
        }
    }
  }

  // On such declarations found is right exactly if the walk is not misled.
  lemma FoundIff(w: World, site: Site, steps: seq<PathStep>, seen: set<Visit>, fuel: nat)
    requires StraightWorld(w) && site in w.decls && IsFound(LookupDecl(w, site, steps, seen, fuel))
    ensures HasDecl(w, site, steps) <==> !MisleadsDecl(w, site, steps)
  {
    FoundDecl(w, site, steps, seen, fuel);
    DeclMisled(w, site, steps, seen, fuel);
  }
}
