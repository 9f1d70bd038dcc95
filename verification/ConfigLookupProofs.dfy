// When the definite answers of the lookup are right.
module ConfigLookupProofs {
  import opened Options
  import opened ConfigTypes
  import opened ConfigLookup
  import opened ConfigPresence

  // A node the lookup takes for something else: it looks through `keyof` and `unique`, follows a
  // type parameter to a declaration of its name, and takes every name spelled like a utility
  // type for that utility type.
  predicate Misread(w: World, file: string, node: TypeNode) {
    match node
    case Operator(op, _) => op != ReadonlyOf
    case Parameter(name) => DeclForTypeName(w, file, name).Some?
    case Reference(head, qualified, args) =>
      (IsPassthrough(head) || IsArrayName(head)) && args != [] && (qualified || Site(file, head) in w.resolved)
    case _ => false
  }

  // ---- Missing ----

  // The walk of the path comes to a member list, or to a node, where something it overlooks or
  // misreads does not definitely lack the rest of the path.
  least predicate OverlooksDecl(w: World, site: Site, steps: seq<PathStep>) {
    steps != [] && site in w.decls &&
    match w.decls[site]
    case Interface(members, bases) =>
      steps[0].Named? &&
      (|| !Complete(w, site)
       || OverlooksAmong(w, site.file, members, bases, MembersOf(w, PartsOf(w, site)), BasesOf(w, PartsOf(w, site)),
                         steps))
    case Alias(body) => OverlooksType(w, site.file, body, steps)
    case Enum => false
  }

  // The lookup consults the first property written with the name and, without one, the bases of
  // the list itself; it overlooks all other members and bases.
  predicate Consults(file: string, members: seq<Member>, q: PlacedMember, name: string) {
    q.file == file && FindProperty(members, name) == Some(q.member)
  }

  least predicate OverlooksAmong(w: World, file: string, members: seq<Member>, bases: seq<Base>,
                                 all: seq<PlacedMember>, allBases: seq<PlacedBase>, steps: seq<PathStep>)
  {
    steps != [] && steps[0].Named? &&
    var name := steps[0].member;
    var direct := FindProperty(members, name);
    || (exists q ::
          Governs(w, all, q, name) && !Consults(file, members, q, name) && !LacksRest(w, q.file, q.member, steps))
    || (exists q ::
          Governs(w, all, q, name) && Consults(file, members, q, name) && OverlooksRest(w, file, q.member, steps))
    || (!SomeNamed(all, name) &&
        exists b :: b in allBases && if direct.None? && b in PlaceBases(file, bases) then OverlooksBase(w, b, steps)
                                     else !LacksBase(w, b, steps))
  }

  least predicate OverlooksBase(w: World, b: PlacedBase, steps: seq<PathStep>) {
    && b.base.Named? && DeclForTypeName(w, b.file, b.base.name).Some?
    && OverlooksDecl(w, DeclForTypeName(w, b.file, b.base.name).value, steps)
  }

  least predicate OverlooksRest(w: World, file: string, m: Member, steps: seq<PathStep>) {
    && |steps| > 1 && m.Property? && m.declared.Some?
    && OverlooksType(w, file, m.declared.value, steps[1..])
  }

  least predicate OverlooksType(w: World, file: string, node: TypeNode, steps: seq<PathStep>) {
    steps != [] &&
    if Misread(w, file, node) then !LacksType(w, file, node, steps)
    else
      match node
      case Literal(members) => OverlooksAmong(w, file, members, [], Place(file, members), [], steps)
      case Paren(inner) => OverlooksType(w, file, inner, steps)
      case Operator(_, inner) => OverlooksType(w, file, inner, steps)
      case Intersection(parts) => exists p :: p in parts && OverlooksType(w, file, p, steps)
      case Union(first, rest) =>
        OverlooksType(w, file, first, steps) || exists p :: p in rest && OverlooksType(w, file, p, steps)
      case ArrayOf(element) => steps[0].Element? && OverlooksType(w, file, element, steps[1..])
      case Indexed(container, key) =>
        key.Some? && OverlooksType(w, file, container, [PathStep.Named(key.value)] + steps)
      case Reference(head, _, args) =>
        if IsPassthrough(head) && args != [] then OverlooksType(w, file, args[0], steps)
        else if IsArrayName(head) && args != [] then steps[0].Element? && OverlooksType(w, file, args[0], steps[1..])
        else DeclForTypeName(w, file, head).Some? && OverlooksDecl(w, DeclForTypeName(w, file, head).value, steps)
      case _ => false
  }

  predicate IsMissing(r: Outcome<Answer>) {
    r.Done? && r.value == Missing
  }

  // Missing is right exactly if the walk overlooks nothing of the kind.
  lemma {:induction false} MissingDeclIff(w: World, site: Site, steps: seq<PathStep>, seen: set<Visit>, fuel: nat)
    requires site in w.decls && IsMissing(LookupDecl(w, site, steps, seen, fuel))
    ensures LacksDecl(w, site, steps) <==> !OverlooksDecl(w, site, steps)
    decreases fuel, 0
  {
    var more := seen + {Visit(site, |steps|)};
    match w.decls[site]
    case Interface(members, bases) =>
      OwnParts(w, site);
      MissingAmongIff(w, site.file, members, bases, MembersOf(w, PartsOf(w, site)), BasesOf(w, PartsOf(w, site)),
                      steps, more, fuel - 1);
    case Alias(body) => MissingTypeIff(w, site.file, body, steps, more, fuel - 1);
  }

  // What the lookup answers for a list of members and bases.
  function LookupAmong(w: World, file: string, members: seq<Member>, bases: seq<Base>, steps: seq<PathStep>,
                       seen: set<Visit>, fuel: nat): Outcome<Answer>
    requires steps != [] && steps[0].Named?
  {
    var direct := FindProperty(members, steps[0].member);
    if direct.Some? then LookupProperty(w, file, direct.value, steps, seen, fuel)
    else
      var r := LookupBases(w, file, bases, steps, seen, fuel);
      if r.OutOfFuel? then OutOfFuel else Done(Combine(r.value), r.seen)
  }

  // The members and bases of an interface are among those of all its parts.
  lemma OwnParts(w: World, site: Site)
    requires IsInterface(w, site)
    ensures forall q :: q in Place(site.file, w.decls[site].members) ==> q in MembersOf(w, PartsOf(w, site))
    ensures forall b :: b in PlaceBases(site.file, w.decls[site].bases) ==> b in BasesOf(w, PartsOf(w, site))
  {
    assert PartsOf(w, site)[0] == site;
  }

  lemma {:induction false} MissingAmongIff(w: World, file: string, members: seq<Member>, bases: seq<Base>,
                                           all: seq<PlacedMember>, allBases: seq<PlacedBase>, steps: seq<PathStep>,
                                           seen: set<Visit>, fuel: nat)
    requires steps != [] && steps[0].Named? && IsMissing(LookupAmong(w, file, members, bases, steps, seen, fuel))
    ensures LacksAmong(w, all, allBases, steps) <==> !OverlooksAmong(w, file, members, bases, all, allBases, steps)
    decreases fuel, 2, members
  {
    var name := steps[0].member;
    var direct := FindProperty(members, name);
    forall q | Governs(w, all, q, name) && Consults(file, members, q, name)
      ensures LacksRest(w, q.file, q.member, steps) <==> !OverlooksRest(w, file, q.member, steps)
    {
      MissingRestIff(w, file, q.member, steps, seen, fuel);
    }
    if direct.None? {
      MissingBasesIff(w, file, bases, steps, seen, fuel);
    }
  }

  lemma {:induction false} MissingBasesIff(w: World, file: string, bases: seq<Base>, steps: seq<PathStep>,
                                           seen: set<Visit>, fuel: nat)
    requires var r := LookupBases(w, file, bases, steps, seen, fuel); r.Done? && Combine(r.value) == Missing
    ensures forall b :: b in PlaceBases(file, bases) ==> (LacksBase(w, b, steps) <==> !OverlooksBase(w, b, steps))
    decreases fuel, 1, bases
  {
    if bases != [] {
      var r := LookupBases(w, file, bases, steps, seen, fuel);
      var head := LookupBase(w, file, bases[0], steps, seen, fuel);
      assert r.value[0] in r.value;
      assert forall a :: a in r.value[1..] ==> a in r.value;
      MissingDeclIff(w, DeclForTypeName(w, file, bases[0].name).value, steps, seen, fuel);
      MissingBasesIff(w, file, bases[1..], steps, head.seen, fuel);
    }
  }

  lemma {:induction false} MissingRestIff(w: World, file: string, m: Member, steps: seq<PathStep>, seen: set<Visit>,
                                          fuel: nat)
    requires m.Property? && steps != [] && IsMissing(LookupProperty(w, file, m, steps, seen, fuel))
    ensures LacksRest(w, file, m, steps) <==> !OverlooksRest(w, file, m, steps)
    decreases fuel, 2, m
  {
    MissingTypeIff(w, file, m.declared.value, steps[1..], seen, fuel);
  }

  lemma {:induction false} MissingAllIff(w: World, file: string, types: seq<TypeNode>, steps: seq<PathStep>,
                                         seen: set<Visit>, fuel: nat)
    requires var r := LookupAll(w, file, types, steps, seen, fuel); r.Done? && forall a :: a in r.value ==> a == Missing
    ensures forall p :: p in types ==> (LacksType(w, file, p, steps) <==> !OverlooksType(w, file, p, steps))
    decreases fuel, 2, types
  {
    if types != [] {
      var r := LookupAll(w, file, types, steps, seen, fuel);
      var head := LookupType(w, file, types[0], steps, seen, fuel);
      assert r.value[0] in r.value;
      assert forall a :: a in r.value[1..] ==> a in r.value;
      MissingTypeIff(w, file, types[0], steps, seen, fuel);
      MissingAllIff(w, file, types[1..], steps, head.seen, fuel);
    }
  }

  lemma {:induction false} MissingTypeIff(w: World, file: string, node: TypeNode, steps: seq<PathStep>,
                                          seen: set<Visit>, fuel: nat)
    requires IsMissing(LookupType(w, file, node, steps, seen, fuel))
    ensures LacksType(w, file, node, steps) <==> !OverlooksType(w, file, node, steps)
    decreases fuel, 2, node
  {
    if !Misread(w, file, node) {
      match node
      case Literal(members) =>
        assert LookupBases(w, file, [], steps, seen, fuel) == Done([], seen);
        MissingAmongIff(w, file, members, [], Place(file, members), [], steps, seen, fuel);
      case Paren(inner) => MissingTypeIff(w, file, inner, steps, seen, fuel);
      case Operator(_, inner) => MissingTypeIff(w, file, inner, steps, seen, fuel);
      case Intersection(parts) => MissingAllIff(w, file, parts, steps, seen, fuel);
      case Union(first, rest) => MissingUnionIff(w, file, first, rest, steps, seen, fuel);
      case ArrayOf(element) => MissingTypeIff(w, file, element, steps[1..], seen, fuel);
      case Indexed(container, key) =>
        MissingTypeIff(w, file, container, [PathStep.Named(key.value)] + steps, seen, fuel);
      case Reference(head, _, args) =>
        if IsPassthrough(head) && args != [] {
          MissingTypeIff(w, file, args[0], steps, seen, fuel);
        } else if IsArrayName(head) && args != [] {
          MissingTypeIff(w, file, args[0], steps[1..], seen, fuel);
        } else {
          MissingDeclIff(w, DeclForTypeName(w, file, head).value, steps, seen, fuel);
        }
    }
  }

  lemma {:induction false} MissingUnionIff(w: World, file: string, first: TypeNode, rest: seq<TypeNode>,
                                           steps: seq<PathStep>, seen: set<Visit>, fuel: nat)
    requires steps != [] && IsMissing(LookupType(w, file, Union(first, rest), steps, seen, fuel))
    ensures LacksType(w, file, first, steps) <==> !OverlooksType(w, file, first, steps)
    ensures forall p :: p in rest ==> (LacksType(w, file, p, steps) <==> !OverlooksType(w, file, p, steps))
    decreases fuel, 2, Union(first, rest), 0
  {
    var head := LookupType(w, file, first, steps, seen, fuel);
    var tail := LookupAll(w, file, rest, steps, head.seen, fuel);
    var answers := [head.value] + tail.value;
    assert answers[0] in answers;
    assert forall a :: a in tail.value ==> a in answers;
    MissingTypeIff(w, file, first, steps, seen, fuel);
    MissingAllIff(w, file, rest, steps, head.seen, fuel);
  }

  // ---- Found ----

  // The walk of the path comes to a member list, or to a node, where it reads something as having
  // the rest of the path that does not.
  least predicate MisleadsDecl(w: World, site: Site, steps: seq<PathStep>) {
    steps != [] && site in w.decls &&
    match w.decls[site]
    case Interface(members, bases) =>
      && steps[0].Named?
      && MisleadsAmong(w, site.file, members, bases, Complete(w, site), MembersOf(w, PartsOf(w, site)),
                       BasesOf(w, PartsOf(w, site)), steps)
    case Alias(body) => MisleadsType(w, site.file, body, steps)
    case Enum => false
  }

  // A property may be written with the name and declare another key, and a member that is
  // overlooked may hide what the bases declare.
  least predicate MisleadsAmong(w: World, file: string, members: seq<Member>, bases: seq<Base>, complete: bool,
                                all: seq<PlacedMember>, allBases: seq<PlacedBase>, steps: seq<PathStep>)
  {
    steps != [] && steps[0].Named? &&
    match FindProperty(members, steps[0].member)
    case Some(direct) =>
      if direct.key == steps[0].member then MisleadsRest(w, file, direct, steps)
      else !HasAmong(w, complete, all, allBases, steps)
    case None =>
      if SomeNamed(all, steps[0].member) || !complete then !HasAmong(w, complete, all, allBases, steps)
      else exists b :: b in PlaceBases(file, bases) && MisleadsBase(w, b, steps)
  }

  least predicate MisleadsBase(w: World, b: PlacedBase, steps: seq<PathStep>) {
    && b.base.Named? && DeclForTypeName(w, b.file, b.base.name).Some?
    && MisleadsDecl(w, DeclForTypeName(w, b.file, b.base.name).value, steps)
  }

  least predicate MisleadsRest(w: World, file: string, m: Member, steps: seq<PathStep>) {
    && |steps| > 1 && m.Property? && m.declared.Some?
    && MisleadsType(w, file, m.declared.value, steps[1..])
  }

  least predicate MisleadsType(w: World, file: string, node: TypeNode, steps: seq<PathStep>) {
    steps != [] &&
    if Misread(w, file, node) then !HasType(w, file, node, steps)
    else
      match node
      case Literal(members) => MisleadsAmong(w, file, members, [], true, Place(file, members), [], steps)
      case Paren(inner) => MisleadsType(w, file, inner, steps)
      case Operator(_, inner) => MisleadsType(w, file, inner, steps)
      case Intersection(parts) => exists p :: p in parts && MisleadsType(w, file, p, steps)
      case Union(first, rest) =>
        MisleadsType(w, file, first, steps) || exists p :: p in rest && MisleadsType(w, file, p, steps)
      case ArrayOf(element) => steps[0].Element? && MisleadsType(w, file, element, steps[1..])
      case Indexed(container, key) => key.Some? && MisleadsType(w, file, container, [PathStep.Named(key.value)] + steps)
      case Reference(head, _, args) =>
        if IsPassthrough(head) && args != [] then MisleadsType(w, file, args[0], steps)
        else if IsArrayName(head) && args != [] then steps[0].Element? && MisleadsType(w, file, args[0], steps[1..])
        else DeclForTypeName(w, file, head).Some? && MisleadsDecl(w, DeclForTypeName(w, file, head).value, steps)
      case _ => false
  }

  predicate IsFound(r: Outcome<Answer>) {
    r.Done? && r.value == Found
  }

  // Found is right unless the walk is misled. (Even then another part of an intersection may
  // declare the path.)
  lemma {:induction false} FoundDecl(w: World, site: Site, steps: seq<PathStep>, seen: set<Visit>, fuel: nat)
    requires site in w.decls && IsFound(LookupDecl(w, site, steps, seen, fuel))
    ensures HasDecl(w, site, steps) || MisleadsDecl(w, site, steps)
    decreases fuel, 0
  {
    if steps != [] {
      var more := seen + {Visit(site, |steps|)};
      match w.decls[site]
      case Interface(members, bases) =>
        OwnParts(w, site);
        FoundAmong(w, site.file, members, bases, Complete(w, site), MembersOf(w, PartsOf(w, site)),
                   BasesOf(w, PartsOf(w, site)), steps, more, fuel - 1);
      case Alias(body) => FoundType(w, site.file, body, steps, more, fuel - 1);
    }
  }

  lemma {:induction false} FoundAmong(w: World, file: string, members: seq<Member>, bases: seq<Base>, complete: bool,
                                      all: seq<PlacedMember>, allBases: seq<PlacedBase>, steps: seq<PathStep>,
                                      seen: set<Visit>, fuel: nat)
    requires steps != [] && steps[0].Named? && IsFound(LookupAmong(w, file, members, bases, steps, seen, fuel))
    requires forall q :: q in Place(file, members) ==> q in all
    requires forall b :: b in PlaceBases(file, bases) ==> b in allBases
    ensures HasAmong(w, complete, all, allBases, steps)
         || MisleadsAmong(w, file, members, bases, complete, all, allBases, steps)
    decreases fuel, 2, members
  {
    match FindProperty(members, steps[0].member)
    case Some(direct) =>
      if direct.key == steps[0].member {
        FoundRest(w, file, direct, steps, seen, fuel);
        assert PlacedMember(file, direct) in Place(file, members);
        assert Governs(w, all, PlacedMember(file, direct), steps[0].member);
      }
    case None => FoundBases(w, file, bases, steps, seen, fuel);
  }

  lemma {:induction false} FoundBases(w: World, file: string, bases: seq<Base>, steps: seq<PathStep>, seen: set<Visit>,
                                      fuel: nat)
    requires var r := LookupBases(w, file, bases, steps, seen, fuel); r.Done? && Found in r.value
    ensures exists b :: b in PlaceBases(file, bases) && (HasBase(w, b, steps) || MisleadsBase(w, b, steps))
    decreases fuel, 1, bases
  {
    var head := LookupBase(w, file, bases[0], steps, seen, fuel);
    var rest := PlaceBases(file, bases[1..]);
    if head.value == Found {
      assert PlacedBase(file, bases[0]) in PlaceBases(file, bases);
      if bases[0].Named? { FoundDecl(w, DeclForTypeName(w, file, bases[0].name).value, steps, seen, fuel); }
    } else {
      FoundBases(w, file, bases[1..], steps, head.seen, fuel);
      assert forall b :: b in rest ==> b in PlaceBases(file, bases);
    }
  }

  lemma {:induction false} FoundRest(w: World, file: string, m: Member, steps: seq<PathStep>, seen: set<Visit>,
                                     fuel: nat)
    requires m.Property? && steps != [] && IsFound(LookupProperty(w, file, m, steps, seen, fuel))
    ensures HasRest(w, file, m, steps) || MisleadsRest(w, file, m, steps)
    decreases fuel, 2, m
  {
    if |steps| > 1 { FoundType(w, file, m.declared.value, steps[1..], seen, fuel); }
  }

  lemma {:induction false} FoundSome(w: World, file: string, types: seq<TypeNode>, steps: seq<PathStep>,
                                     seen: set<Visit>, fuel: nat)
    requires var r := LookupAll(w, file, types, steps, seen, fuel); r.Done? && Found in r.value
    ensures exists p :: p in types && (HasType(w, file, p, steps) || MisleadsType(w, file, p, steps))
    decreases fuel, 2, types
  {
    var head := LookupType(w, file, types[0], steps, seen, fuel);
    if head.value == Found {
      FoundType(w, file, types[0], steps, seen, fuel);
    } else {
      FoundSome(w, file, types[1..], steps, head.seen, fuel);
      assert forall p :: p in types[1..] ==> p in types;
    }
  }

  lemma {:induction false} FoundEach(w: World, file: string, types: seq<TypeNode>, steps: seq<PathStep>,
                                     seen: set<Visit>, fuel: nat)
    requires var r := LookupAll(w, file, types, steps, seen, fuel); r.Done? && forall a :: a in r.value ==> a == Found
    ensures forall p :: p in types ==> HasType(w, file, p, steps) || MisleadsType(w, file, p, steps)
    decreases fuel, 2, types
  {
    if types != [] {
      var r := LookupAll(w, file, types, steps, seen, fuel);
      var head := LookupType(w, file, types[0], steps, seen, fuel);
      assert r.value[0] in r.value;
      assert forall a :: a in r.value[1..] ==> a in r.value;
      FoundType(w, file, types[0], steps, seen, fuel);
      FoundEach(w, file, types[1..], steps, head.seen, fuel);
    }
  }

  lemma {:induction false} FoundType(w: World, file: string, node: TypeNode, steps: seq<PathStep>, seen: set<Visit>,
                                     fuel: nat)
    requires IsFound(LookupType(w, file, node, steps, seen, fuel))
    ensures HasType(w, file, node, steps) || MisleadsType(w, file, node, steps)
    decreases fuel, 2, node
  {
    if steps != [] && !Misread(w, file, node) {
      match node
      case Literal(members) =>
        FoundAmong(w, file, members, [], true, Place(file, members), [], steps, seen, fuel);
      case Paren(inner) => FoundType(w, file, inner, steps, seen, fuel);
      case Operator(_, inner) => FoundType(w, file, inner, steps, seen, fuel);
      case Intersection(parts) => FoundSome(w, file, parts, steps, seen, fuel);
      case Union(first, rest) => FoundUnion(w, file, first, rest, steps, seen, fuel);
      case ArrayOf(element) => FoundType(w, file, element, steps[1..], seen, fuel);
      case Indexed(container, key) => FoundType(w, file, container, [PathStep.Named(key.value)] + steps, seen, fuel);
      case Reference(head, _, args) =>
        if IsPassthrough(head) && args != [] {
          FoundType(w, file, args[0], steps, seen, fuel);
        } else if IsArrayName(head) && args != [] {
          FoundType(w, file, args[0], steps[1..], seen, fuel);
        } else {
          FoundDecl(w, DeclForTypeName(w, file, head).value, steps, seen, fuel);
        }
    }
  }

  lemma {:induction false} FoundUnion(w: World, file: string, first: TypeNode, rest: seq<TypeNode>,
                                      steps: seq<PathStep>, seen: set<Visit>, fuel: nat)
    requires steps != [] && IsFound(LookupType(w, file, Union(first, rest), steps, seen, fuel))
    ensures HasType(w, file, first, steps) || MisleadsType(w, file, first, steps)
    ensures forall p :: p in rest ==> HasType(w, file, p, steps) || MisleadsType(w, file, p, steps)
    decreases fuel, 2, Union(first, rest), 0
  {
    var head := LookupType(w, file, first, steps, seen, fuel);
    var tail := LookupAll(w, file, rest, steps, head.seen, fuel);
    var answers := [head.value] + tail.value;
    assert answers[0] in answers;
    assert forall a :: a in tail.value ==> a in answers;
    FoundType(w, file, first, steps, seen, fuel);
    FoundEach(w, file, rest, steps, head.seen, fuel);
  }
}
