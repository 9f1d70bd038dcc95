// When the lookup ends: exactly how far a path can grow, when it does not end, and what its guard
// against cycles costs.
module ConfigTermination {
  import opened Options
  import opened ConfigTypes
  import opened ConfigLookup
  import opened ConfigPresence
  import opened Potentials

  // ---- Room ----

  // For every declaration, a length no path that comes to it exceeds. A literal indexed access
  // lengthens the path by one step, a property or an array element shortens it by one.
  type Room = map<Site, nat>

  ghost predicate FitsName(w: World, room: Room, file: string, name: string, k: int) {
    var site := DeclForTypeName(w, file, name);
    site.Some? ==> site.value in room && k <= room[site.value]
  }

  // Paths of at most k steps that enter the node stay within the room of what it refers to.
  ghost predicate FitsType(w: World, room: Room, file: string, node: TypeNode, k: int) {
    k <= 0 ||
    match node
    case Literal(members) => forall m :: m in members ==> FitsMember(w, room, file, m, k)
    case Paren(inner) => FitsType(w, room, file, inner, k)
    case Operator(_, inner) => FitsType(w, room, file, inner, k)
    case Intersection(parts) => forall p :: p in parts ==> FitsType(w, room, file, p, k)
    case Union(first, rest) =>
      FitsType(w, room, file, first, k) && forall p :: p in rest ==> FitsType(w, room, file, p, k)
    case ArrayOf(element) => FitsType(w, room, file, element, k - 1)
    case Indexed(container, key) => key.Some? ==> FitsType(w, room, file, container, k + 1)
    case Reference(head, qualified, args) =>
      if IsPassthrough(head) && args != [] then FitsType(w, room, file, args[0], k)
      else if IsArrayName(head) && args != [] then FitsType(w, room, file, args[0], k - 1)
      else qualified || FitsName(w, room, file, head, k)
    case Parameter(name) => FitsName(w, room, file, name, k)
    case OtherType => true
  }

  ghost predicate FitsMember(w: World, room: Room, file: string, m: Member, k: int) {
    m.Property? && m.declared.Some? ==> FitsType(w, room, file, m.declared.value, k - 1)
  }

  ghost predicate FitsDecl(w: World, room: Room, site: Site)
    requires site in w.decls && site in room
  {
    match w.decls[site]
    case Interface(members, bases) =>
      && (forall m :: m in members ==> FitsMember(w, room, site.file, m, room[site]))
      && forall b: Base :: b in bases && b.Named? ==> FitsName(w, room, site.file, b.name, room[site])
    case Alias(body) => FitsType(w, room, site.file, body, room[site])
    case Enum => true
  }

  // Room for the declarations of a world, none of it longer than the longest path.
  datatype Plan = Plan(room: Room, longest: nat)

  ghost predicate IsRoom(w: World, plan: Plan) {
    match plan
    case Plan(room, longest) =>
      && room.Keys == w.decls.Keys
      && (forall site {:trigger FitsDecl(w, room, site)} :: site in w.decls ==> FitsDecl(w, room, site))
      && forall site :: site in w.decls ==> room[site] <= longest
  }

  // ---- Within room the walk ends, however cyclic the declarations ----

  function Visits(w: World, longest: nat): set<Visit> {
    set site, left | site in w.decls && 0 <= left <= longest :: Visit(site, left)
  }

  function Unvisited(w: World, longest: nat, seen: set<Visit>): nat {
    |Visits(w, longest) - seen|
  }

  lemma {:induction false} SmallerSet<T>(a: set<T>, b: set<T>)
    requires a <= b
    ensures |a| <= |b|
  {
    assert b == a + (b - a);
  }

  lemma FewerUnvisited(w: World, longest: nat, seen: set<Visit>, more: set<Visit>)
    requires seen <= more
    ensures Unvisited(w, longest, more) <= Unvisited(w, longest, seen)
  {
    SmallerSet(Visits(w, longest) - more, Visits(w, longest) - seen);
  }

  lemma OneLessUnvisited(w: World, longest: nat, seen: set<Visit>, visit: Visit)
    requires visit in Visits(w, longest) && visit !in seen
    ensures Unvisited(w, longest, seen + {visit}) == Unvisited(w, longest, seen) - 1
  {
    assert Visits(w, longest) - (seen + {visit}) == (Visits(w, longest) - seen) - {visit};
  }

  // The call answers and has only added visits.
  ghost predicate Ends<A>(r: Outcome<A>, seen: set<Visit>) {
    match r
    case Done(_, after) => seen <= after
    case OutOfFuel => false
  }

  // There is more fuel than visits that are still possible.
  ghost predicate Spare(w: World, plan: Plan, seen: set<Visit>, fuel: nat) {
    match plan case Plan(_, longest) => Unvisited(w, longest, seen) < fuel
  }

  lemma SpareAfter<A>(w: World, plan: Plan, r: Outcome<A>, seen: set<Visit>, fuel: nat)
    requires Spare(w, plan, seen, fuel) && Ends(r, seen)
    ensures Spare(w, plan, r.seen, fuel)
  {
    FewerUnvisited(w, plan.longest, seen, r.seen);
  }

  lemma SpareBelow(w: World, plan: Plan, site: Site, left: nat, seen: set<Visit>, fuel: nat)
    requires Spare(w, plan, seen, fuel) && site in w.decls && left <= plan.longest && Visit(site, left) !in seen
    ensures fuel > 0 && Spare(w, plan, seen + {Visit(site, left)}, fuel - 1)
  {
    assert Visit(site, left) in Visits(w, plan.longest);
    OneLessUnvisited(w, plan.longest, seen, Visit(site, left));
  }

  lemma {:induction false} DeclEnds(w: World, plan: Plan, site: Site, steps: seq<PathStep>,
                                    seen: set<Visit>, fuel: nat)
    requires IsRoom(w, plan) && site in w.decls && |steps| <= plan.room[site]
    requires Spare(w, plan, seen, fuel)
    ensures Ends(LookupDecl(w, site, steps, seen, fuel), seen)
    decreases fuel, 0, 0
  {
    var visit := Visit(site, |steps|);
    if steps != [] && visit !in seen && !w.decls[site].Enum? {
      SpareBelow(w, plan, site, |steps|, seen, fuel);
      if w.decls[site].Interface? {
        InterfaceEnds(w, plan, site, steps, seen, fuel);
      } else {
        assert FitsDecl(w, plan.room, site);
        TypeEnds(w, plan, site.file, w.decls[site].body, plan.room[site], steps, seen + {visit}, fuel - 1);
        AliasAnswers(w, site, steps, seen, fuel);
      }
    }
  }

  lemma AliasAnswers(w: World, site: Site, steps: seq<PathStep>, seen: set<Visit>, fuel: nat)
    requires site in w.decls && w.decls[site].Alias? && steps != [] && fuel > 0
    requires var more := seen + {Visit(site, |steps|)};
      Ends(LookupType(w, site.file, w.decls[site].body, steps, more, fuel - 1), more)
    ensures Ends(LookupDecl(w, site, steps, seen, fuel), seen)
  {
  }

  lemma {:induction false} InterfaceEnds(w: World, plan: Plan, site: Site, steps: seq<PathStep>, seen: set<Visit>,
                                         fuel: nat)
    requires IsRoom(w, plan) && site in w.decls && w.decls[site].Interface?
    requires 0 < |steps| <= plan.room[site] && fuel > 0
    requires Spare(w, plan, seen + {Visit(site, |steps|)}, fuel - 1)
    ensures Ends(LookupDecl(w, site, steps, seen, fuel), seen)
    decreases fuel - 1, 2
  {
    var more := seen + {Visit(site, |steps|)};
    if steps[0].Named? {
      assert FitsDecl(w, plan.room, site);
      match FindProperty(w.decls[site].members, steps[0].member)
      case Some(direct) =>
        assert FitsMember(w, plan.room, site.file, direct, plan.room[site]);
        PropertyEnds(w, plan, site.file, direct, plan.room[site], steps, more, fuel - 1);
      case None => BasesEnd(w, plan, site.file, w.decls[site].bases, plan.room[site], steps, more, fuel - 1);
    }
  }

  lemma {:induction false} PropertyEnds(w: World, plan: Plan, file: string, m: Member, k: int,
                                        steps: seq<PathStep>, seen: set<Visit>, fuel: nat)
    requires IsRoom(w, plan) && m.Property? && FitsMember(w, plan.room, file, m, k)
    requires 0 < |steps| <= k && Spare(w, plan, seen, fuel)
    ensures Ends(LookupProperty(w, file, m, steps, seen, fuel), seen)
    decreases fuel, 1, m
  {
    if |steps| > 1 && m.declared.Some? {
      TypeEnds(w, plan, file, m.declared.value, k - 1, steps[1..], seen, fuel);
    }
  }

  lemma {:induction false} BasesEnd(w: World, plan: Plan, file: string, bases: seq<Base>, k: int,
                                    steps: seq<PathStep>, seen: set<Visit>, fuel: nat)
    requires IsRoom(w, plan) && |steps| <= k && Spare(w, plan, seen, fuel)
    requires forall b: Base :: b in bases && b.Named? ==> FitsName(w, plan.room, file, b.name, k)
    ensures Ends(LookupBases(w, file, bases, steps, seen, fuel), seen)
    decreases fuel, 1, bases
  {
    if bases != [] {
      BaseEnds(w, plan, file, bases[0], k, steps, seen, fuel);
      var head := LookupBase(w, file, bases[0], steps, seen, fuel);
      SpareAfter(w, plan, head, seen, fuel);
      BasesEnd(w, plan, file, bases[1..], k, steps, head.seen, fuel);
    }
  }

  lemma {:induction false} BaseEnds(w: World, plan: Plan, file: string, base: Base, k: int,
                                    steps: seq<PathStep>, seen: set<Visit>, fuel: nat)
    requires IsRoom(w, plan) && |steps| <= k && Spare(w, plan, seen, fuel)
    requires base.Named? ==> FitsName(w, plan.room, file, base.name, k)
    ensures Ends(LookupBase(w, file, base, steps, seen, fuel), seen)
    decreases fuel, 0, 2
  {
    if base.Named? { NameEnds(w, plan, file, base.name, k, steps, seen, fuel); }
  }

  lemma {:induction false} NameEnds(w: World, plan: Plan, file: string, name: string, k: int,
                                    steps: seq<PathStep>, seen: set<Visit>, fuel: nat)
    requires IsRoom(w, plan) && FitsName(w, plan.room, file, name, k) && |steps| <= k
    requires Spare(w, plan, seen, fuel)
    ensures DeclForTypeName(w, file, name).Some? ==>
              Ends(LookupDecl(w, DeclForTypeName(w, file, name).value, steps, seen, fuel), seen)
    decreases fuel, 0, 1
  {
    if DeclForTypeName(w, file, name).Some? {
      DeclEnds(w, plan, DeclForTypeName(w, file, name).value, steps, seen, fuel);
    }
  }

  lemma {:induction false} AllEnd(w: World, plan: Plan, file: string, types: seq<TypeNode>, k: int,
                                  steps: seq<PathStep>, seen: set<Visit>, fuel: nat)
    requires IsRoom(w, plan) && |steps| <= k && Spare(w, plan, seen, fuel)
    requires forall p :: p in types ==> FitsType(w, plan.room, file, p, k)
    ensures Ends(LookupAll(w, file, types, steps, seen, fuel), seen)
    decreases fuel, 1, types
  {
    if types != [] {
      TypeEnds(w, plan, file, types[0], k, steps, seen, fuel);
      var head := LookupType(w, file, types[0], steps, seen, fuel);
      SpareAfter(w, plan, head, seen, fuel);
      AllEnd(w, plan, file, types[1..], k, steps, head.seen, fuel);
    }
  }

  lemma {:induction false} TypeEnds(w: World, plan: Plan, file: string, node: TypeNode, k: int,
                                    steps: seq<PathStep>, seen: set<Visit>, fuel: nat)
    requires IsRoom(w, plan) && FitsType(w, plan.room, file, node, k) && |steps| <= k
    requires Spare(w, plan, seen, fuel)
    ensures Ends(LookupType(w, file, node, steps, seen, fuel), seen)
    decreases fuel, 1, node, 1
  {
    if steps != [] {
      match node
      case Literal(members) =>
        if steps[0].Named? && FindProperty(members, steps[0].member).Some? {
          var direct := FindProperty(members, steps[0].member).value;
          assert FitsMember(w, plan.room, file, direct, k);
          PropertyEnds(w, plan, file, direct, k, steps, seen, fuel);
        }
      case Paren(inner) => TypeEnds(w, plan, file, inner, k, steps, seen, fuel);
      case Operator(_, inner) => TypeEnds(w, plan, file, inner, k, steps, seen, fuel);
      case Intersection(parts) => AllEnd(w, plan, file, parts, k, steps, seen, fuel);
      case Union(_, _) => UnionEnds(w, plan, file, node, k, steps, seen, fuel);
      case ArrayOf(element) =>
        if steps[0].Element? { TypeEnds(w, plan, file, element, k - 1, steps[1..], seen, fuel); }
      case Indexed(container, key) =>
        if key.Some? {
          TypeEnds(w, plan, file, container, k + 1, [PathStep.Named(key.value)] + steps, seen, fuel);
        }
      case Reference(_, _, _) => ReferenceEnds(w, plan, file, node, k, steps, seen, fuel);
      case Parameter(name) => NameEnds(w, plan, file, name, k, steps, seen, fuel);
      case OtherType =>
    }
  }

  lemma {:induction false} UnionEnds(w: World, plan: Plan, file: string, node: TypeNode, k: int,
                                     steps: seq<PathStep>, seen: set<Visit>, fuel: nat)
    requires IsRoom(w, plan) && FitsType(w, plan.room, file, node, k) && 0 < |steps| <= k
    requires Spare(w, plan, seen, fuel) && node.Union?
    ensures Ends(LookupType(w, file, node, steps, seen, fuel), seen)
    decreases fuel, 1, node, 0
  {
    TypeEnds(w, plan, file, node.first, k, steps, seen, fuel);
    var head := LookupType(w, file, node.first, steps, seen, fuel);
    SpareAfter(w, plan, head, seen, fuel);
    AllEnd(w, plan, file, node.rest, k, steps, head.seen, fuel);
  }

  lemma {:induction false} ReferenceEnds(w: World, plan: Plan, file: string, node: TypeNode, k: int,
                                         steps: seq<PathStep>, seen: set<Visit>, fuel: nat)
    requires IsRoom(w, plan) && FitsType(w, plan.room, file, node, k) && 0 < |steps| <= k
    requires Spare(w, plan, seen, fuel) && node.Reference?
    ensures Ends(LookupType(w, file, node, steps, seen, fuel), seen)
    decreases fuel, 1, node, 0
  {
    if IsPassthrough(node.head) && node.args != [] {
      TypeEnds(w, plan, file, node.args[0], k, steps, seen, fuel);
    } else if IsArrayName(node.head) && node.args != [] {
      if steps[0].Element? { TypeEnds(w, plan, file, node.args[0], k - 1, steps[1..], seen, fuel); }
    } else if !node.qualified {
      NameEnds(w, plan, file, node.head, k, steps, seen, fuel);
    }
  }

  // ---- Declarations that leave room for every path ----

  // The node refers to the declaration with so many more indexed accesses on the way to the
  // reference than properties and array elements.
  ghost predicate Leads(w: World, file: string, node: TypeNode, target: Site, growth: int) {
    match node
    case Literal(members) => exists m :: m in members && MemberLeads(w, file, m, target, growth)
    case Paren(inner) => Leads(w, file, inner, target, growth)
    case Operator(_, inner) => Leads(w, file, inner, target, growth)
    case Intersection(parts) => exists p :: p in parts && Leads(w, file, p, target, growth)
    case Union(first, rest) =>
      Leads(w, file, first, target, growth) || exists p :: p in rest && Leads(w, file, p, target, growth)
    case ArrayOf(element) => Leads(w, file, element, target, growth + 1)
    case Indexed(container, key) => key.Some? && Leads(w, file, container, target, growth - 1)
    case Reference(head, qualified, args) =>
      if IsPassthrough(head) && args != [] then Leads(w, file, args[0], target, growth)
      else if IsArrayName(head) && args != [] then Leads(w, file, args[0], target, growth + 1)
      else !qualified && NameLeads(w, file, head, target, growth)
    case Parameter(name) => NameLeads(w, file, name, target, growth)
    case OtherType => false
  }

  ghost predicate NameLeads(w: World, file: string, name: string, target: Site, growth: int) {
    DeclForTypeName(w, file, name) == Some(target) && growth == 0
  }

  ghost predicate MemberLeads(w: World, file: string, m: Member, target: Site, growth: int) {
    m.Property? && m.declared.Some? && Leads(w, file, m.declared.value, target, growth + 1)
  }

  ghost predicate DeclLeads(w: World, site: Site, target: Site, growth: int) {
    site in w.decls &&
    match w.decls[site]
    case Interface(members, bases) =>
      || (exists m :: m in members && MemberLeads(w, site.file, m, target, growth))
      || (exists b: Base :: b in bases && b.Named? && NameLeads(w, site.file, b.name, target, growth))
    case Alias(body) => Leads(w, site.file, body, target, growth)
    case Enum => false
  }

  // The references among the declarations, with the growth of each.
  ghost function References(w: World): Edges<Site> {
    (site, target, growth) => DeclLeads(w, site, target, growth)
  }

  // No cycle of references lengthens the path in all. A property of the declarations alone.
  ghost predicate NoGrowingCycle(w: World) {
    NoPositiveCycle(References(w), w.decls.Keys)
  }

  // ---- Room from the declarations ----

  lemma {:induction false} GrowthOfType(w: World, file: string, node: TypeNode) returns (most: nat)
    ensures forall target, growth: int :: Leads(w, file, node, target, growth) ==> growth <= most
    decreases node
  {
    match node
    case Literal(members) => most := GrowthOfMembers(w, file, members);
    case Paren(inner) => most := GrowthOfType(w, file, inner);
    case Operator(_, inner) => most := GrowthOfType(w, file, inner);
    case Intersection(parts) => most := GrowthOfAll(w, file, parts);
    case Union(first, rest) =>
      var a := GrowthOfType(w, file, first);
      var b := GrowthOfAll(w, file, rest);
      most := a + b;
    case ArrayOf(element) =>
      most := GrowthOfType(w, file, element);
      forall target, growth: int | Leads(w, file, node, target, growth) ensures growth <= most {
        assert Leads(w, file, element, target, growth + 1);
      }
    case Indexed(container, key) =>
      most := GrowthOfType(w, file, container);
      most := most + 1;
      forall target, growth: int | Leads(w, file, node, target, growth) ensures growth <= most {
        assert Leads(w, file, container, target, growth - 1);
      }
    case Reference(head, _, args) =>
      most := 0;
      if args != [] { most := GrowthOfType(w, file, args[0]); }
      forall target, growth: int | Leads(w, file, node, target, growth) ensures growth <= most {
        assert args != [] && IsPassthrough(head) ==> Leads(w, file, args[0], target, growth);
        assert args != [] && IsArrayName(head) && !IsPassthrough(head) ==> Leads(w, file, args[0], target, growth + 1);
      }
    case _ => most := 0;
  }

  lemma {:induction false} GrowthOfAll(w: World, file: string, types: seq<TypeNode>) returns (most: nat)
    ensures forall p, target, growth :: p in types && Leads(w, file, p, target, growth) ==> growth <= most
    decreases types
  {
    most := 0;
    if types != [] {
      var a := GrowthOfType(w, file, types[0]);
      var b := GrowthOfAll(w, file, types[1..]);
      most := a + b;
    }
  }

  lemma {:induction false} GrowthOfMembers(w: World, file: string, members: seq<Member>) returns (most: nat)
    ensures forall m, target, growth :: m in members && MemberLeads(w, file, m, target, growth) ==> growth <= most
    decreases members
  {
    most := 0;
    if members != [] {
      var m := members[0];
      if m.Property? && m.declared.Some? { most := GrowthOfType(w, file, m.declared.value); }
      forall target, growth: int | MemberLeads(w, file, m, target, growth) ensures growth <= most {
        assert Leads(w, file, m.declared.value, target, growth + 1);
      }
      var b := GrowthOfMembers(w, file, members[1..]);
      most := most + b;
    }
  }

  // No reference among these declarations lengthens a path by more.
  lemma {:induction false} GrowthOfDecls(w: World, sites: set<Site>) returns (most: nat)
    requires sites <= w.decls.Keys
    ensures forall site, target, growth :: site in sites && DeclLeads(w, site, target, growth) ==> growth <= most
    decreases sites
  {
    most := 0;
    if sites != {} {
      var site :| site in sites;
      var b := GrowthOfDecls(w, sites - {site});
      match w.decls[site] {
        case Interface(members, _) => most := GrowthOfMembers(w, site.file, members);
        case Alias(body) => most := GrowthOfType(w, site.file, body);
        case Enum =>
      }
      most := most + b;
    }
  }

  // Whatever the node leads to has room for the path that gets there.
  ghost predicate HasRoom(w: World, room: Room, file: string, node: TypeNode, k: int) {
    forall target, growth: int :: Leads(w, file, node, target, growth) && target in w.decls ==>
      target in room && k + growth <= room[target]
  }

  lemma {:induction false} FitsWhereLeads(w: World, room: Room, file: string, node: TypeNode, k: int)
    requires HasRoom(w, room, file, node, k)
    ensures FitsType(w, room, file, node, k)
    decreases node, 0
  {
    match node
    case Literal(members) =>
      forall m | m in members ensures FitsMember(w, room, file, m, k) {
        if m.Property? && m.declared.Some? {
          forall target, growth: int | Leads(w, file, m.declared.value, target, growth)
            ensures Leads(w, file, node, target, growth - 1)
          {
            assert MemberLeads(w, file, m, target, growth - 1);
          }
          FitsBelow(w, room, file, node, m.declared.value, -1, k);
        }
      }
    case Paren(inner) => FitsBelow(w, room, file, node, inner, 0, k);
    case Operator(_, inner) => FitsBelow(w, room, file, node, inner, 0, k);
    case Intersection(parts) =>
      forall p | p in parts ensures FitsType(w, room, file, p, k) { FitsBelow(w, room, file, node, p, 0, k); }
    case Union(first, rest) =>
      FitsBelow(w, room, file, node, first, 0, k);
      forall p | p in rest ensures FitsType(w, room, file, p, k) { FitsBelow(w, room, file, node, p, 0, k); }
    case ArrayOf(element) => FitsBelow(w, room, file, node, element, -1, k);
    case Indexed(container, key) => if key.Some? { FitsBelow(w, room, file, node, container, 1, k); }
    case Reference(head, qualified, args) =>
      if IsPassthrough(head) && args != [] {
        FitsBelow(w, room, file, node, args[0], 0, k);
      } else if IsArrayName(head) && args != [] {
        FitsBelow(w, room, file, node, args[0], -1, k);
      } else if DeclForTypeName(w, file, head).Some? && !qualified {
        assert Leads(w, file, node, DeclForTypeName(w, file, head).value, 0);
      }
    case Parameter(name) =>
      if DeclForTypeName(w, file, name).Some? { assert Leads(w, file, node, DeclForTypeName(w, file, name).value, 0); }
    case OtherType =>
  }

  lemma {:induction false} FitsBelow(w: World, room: Room, file: string, node: TypeNode, child: TypeNode, step: int,
                                     k: int)
    requires HasRoom(w, room, file, node, k) && child < node
    requires forall target, growth: int :: Leads(w, file, child, target, growth) ==>
               Leads(w, file, node, target, growth + step)
    ensures FitsType(w, room, file, child, k + step)
    decreases child, 1
  {
    forall target, growth: int | Leads(w, file, child, target, growth) && target in w.decls
      ensures target in room && k + step + growth <= room[target]
    {
      assert Leads(w, file, node, target, growth + step);
    }
    FitsWhereLeads(w, room, file, child, k + step);
  }

  // Without a growing cycle there is room for all paths of up to n steps.
  lemma RoomExists(w: World, n: nat) returns (plan: Plan)
    requires NoGrowingCycle(w)
    ensures IsRoom(w, plan) && forall site :: site in w.decls ==> n <= plan.room[site]
  {
    var most := GrowthOfDecls(w, w.decls.Keys);
    PotentialIff(References(w), w.decls.Keys, most);
    var pot :| IsPotential(References(w), w.decls.Keys, pot);
    plan := RoomOfPotential(w, pot, n);
  }

  lemma RoomOfPotential(w: World, pot: Potential<Site>, n: nat) returns (plan: Plan)
    requires IsPotential(References(w), w.decls.Keys, pot)
    ensures IsRoom(w, plan) && forall site :: site in w.decls ==> n <= plan.room[site]
  {
    var room: Room := map site | site in w.decls :: n + pot[site];
    var longest := LongestRoom(room);
    plan := Plan(room, longest);
    forall site | site in w.decls ensures FitsDecl(w, room, site) {
      forall target, growth: int | DeclLeads(w, site, target, growth) && target in w.decls
        ensures room[site] + growth <= room[target]
      {
        assert IsHop(References(w), w.decls.Keys, Hop(site, target, growth));
      }
      LeadsFit(w, room, site);
    }
  }

  lemma {:induction false} LongestRoom(room: Room) returns (longest: nat)
    ensures forall site :: site in room ==> room[site] <= longest
    decreases |room|
  {
    longest := 0;
    if site :| site in room {
      var rest := LongestRoom(room - {site});
      longest := rest + room[site];
      assert forall s :: s in room && s != site ==> s in room - {site} && (room - {site})[s] == room[s];
    }
  }

  lemma LeadsFit(w: World, room: Room, site: Site)
    requires site in w.decls && room.Keys == w.decls.Keys
    requires forall target, growth: int :: DeclLeads(w, site, target, growth) && target in w.decls ==>
               room[site] + growth <= room[target]
    ensures FitsDecl(w, room, site)
  {
    var k: int := room[site];
    match w.decls[site]
    case Interface(members, bases) =>
      forall m | m in members ensures FitsMember(w, room, site.file, m, room[site]) {
        if m.Property? && m.declared.Some? {
          forall target, growth: int | Leads(w, site.file, m.declared.value, target, growth) && target in w.decls
            ensures target in room && room[site] - 1 + growth <= room[target]
          {
            assert MemberLeads(w, site.file, m, target, growth - 1);
            assert DeclLeads(w, site, target, growth - 1);
          }
          FitsWhereLeads(w, room, site.file, m.declared.value, k - 1);
        }
      }
      forall b: Base | b in bases && b.Named? ensures FitsName(w, room, site.file, b.name, room[site]) {
        if DeclForTypeName(w, site.file, b.name).Some? {
          assert NameLeads(w, site.file, b.name, DeclForTypeName(w, site.file, b.name).value, 0);
          assert DeclLeads(w, site, DeclForTypeName(w, site.file, b.name).value, 0);
        }
      }
    case Alias(body) =>
      forall target, growth: int | Leads(w, site.file, body, target, growth) && target in w.decls
        ensures target in room && room[site] + growth <= room[target]
      {
        assert DeclLeads(w, site, target, growth);
      }
      FitsWhereLeads(w, room, site.file, body, room[site]);
    case Enum =>
  }

  // ---- Nothing else leaves room ----

  // How deep a node is nested: no more steps are taken off a path on the way to its references.
  function Depth(node: TypeNode): nat {
    match node
    case Literal(members) => DepthOfMembers(members)
    case Paren(inner) => Depth(inner)
    case Operator(_, inner) => Depth(inner)
    case Intersection(parts) => DepthOfAll(parts)
    case Union(first, rest) => Depth(first) + DepthOfAll(rest)
    case ArrayOf(element) => 1 + Depth(element)
    case Indexed(container, _) => Depth(container)
    case Reference(_, _, args) => 1 + DepthOfAll(args)
    case Parameter(_) => 1
    case OtherType => 0
  }

  function DepthOfAll(types: seq<TypeNode>): (d: nat)
    ensures forall p :: p in types ==> Depth(p) <= d
  {
    if types == [] then 0 else Depth(types[0]) + DepthOfAll(types[1..])
  }

  function DepthOfMember(m: Member): nat {
    if m.Property? && m.declared.Some? then 1 + Depth(m.declared.value) else 0
  }

  function DepthOfMembers(members: seq<Member>): (d: nat)
    ensures forall m :: m in members ==> DepthOfMember(m) <= d
  {
    if members == [] then 0 else DepthOfMember(members[0]) + DepthOfMembers(members[1..])
  }

  // A path that is long enough gets to every reference.
  lemma {:induction false} LeadsWhereFits(w: World, room: Room, file: string, node: TypeNode, k: int, target: Site,
                                          growth: int)
    requires FitsType(w, room, file, node, k) && Leads(w, file, node, target, growth) && Depth(node) <= k && 0 < k
    ensures target in room && k + growth <= room[target]
    decreases node, 1
  {
    match node
    case Literal(members) =>
      var m :| m in members && MemberLeads(w, file, m, target, growth);
      assert FitsMember(w, room, file, m, k) && DepthOfMember(m) <= k;
      MemberLeadsWhereFits(w, room, file, m, k, target, growth);
    case Paren(inner) => LeadsWhereFits(w, room, file, inner, k, target, growth);
    case Operator(_, inner) => LeadsWhereFits(w, room, file, inner, k, target, growth);
    case Intersection(parts) =>
      var p :| p in parts && Leads(w, file, p, target, growth);
      LeadsWhereFits(w, room, file, p, k, target, growth);
    case Union(first, rest) =>
      if Leads(w, file, first, target, growth) {
        LeadsWhereFits(w, room, file, first, k, target, growth);
      } else {
        var p :| p in rest && Leads(w, file, p, target, growth);
        LeadsWhereFits(w, room, file, p, k, target, growth);
      }
    case ArrayOf(element) =>
      LeadsIsDeep(w, file, element, target, growth + 1);
      LeadsWhereFits(w, room, file, element, k - 1, target, growth + 1);
    case Indexed(container, _) => LeadsWhereFits(w, room, file, container, k + 1, target, growth - 1);
    case Reference(_, _, _) => ReferenceLeadsWhereFits(w, room, file, node, k, target, growth);
    case Parameter(_) =>
  }

  lemma {:induction false} ReferenceLeadsWhereFits(w: World, room: Room, file: string, node: TypeNode, k: int,
                                                   target: Site, growth: int)
    requires FitsType(w, room, file, node, k) && Leads(w, file, node, target, growth) && Depth(node) <= k && 0 < k
    requires node.Reference?
    ensures target in room && k + growth <= room[target]
    decreases node, 0
  {
    if IsPassthrough(node.head) && node.args != [] {
      LeadsWhereFits(w, room, file, node.args[0], k, target, growth);
    } else if IsArrayName(node.head) && node.args != [] {
      LeadsIsDeep(w, file, node.args[0], target, growth + 1);
      LeadsWhereFits(w, room, file, node.args[0], k - 1, target, growth + 1);
    }
  }

  lemma {:induction false} MemberLeadsWhereFits(w: World, room: Room, file: string, m: Member, k: int, target: Site,
                                                growth: int)
    requires FitsMember(w, room, file, m, k) && MemberLeads(w, file, m, target, growth) && DepthOfMember(m) <= k
    ensures target in room && k + growth <= room[target]
    decreases m, 0
  {
    LeadsIsDeep(w, file, m.declared.value, target, growth + 1);
    LeadsWhereFits(w, room, file, m.declared.value, k - 1, target, growth + 1);
  }

  lemma {:induction false} LeadsIsDeep(w: World, file: string, node: TypeNode, target: Site, growth: int)
    requires Leads(w, file, node, target, growth)
    ensures 0 < Depth(node)
    decreases node
  {
    match node
    case Literal(members) =>
      var m :| m in members && MemberLeads(w, file, m, target, growth);
      assert 0 < DepthOfMember(m);
    case Paren(inner) => LeadsIsDeep(w, file, inner, target, growth);
    case Operator(_, inner) => LeadsIsDeep(w, file, inner, target, growth);
    case Intersection(parts) =>
      var p :| p in parts && Leads(w, file, p, target, growth);
      LeadsIsDeep(w, file, p, target, growth);
    case Union(first, rest) =>
      if Leads(w, file, first, target, growth) {
        LeadsIsDeep(w, file, first, target, growth);
      } else {
        var p :| p in rest && Leads(w, file, p, target, growth);
        LeadsIsDeep(w, file, p, target, growth);
      }
    case Indexed(container, _) => LeadsIsDeep(w, file, container, target, growth - 1);
    case _ =>
  }

  function DepthOfDecl(decl: Decl): nat {
    match decl
    case Interface(members, _) => 1 + DepthOfMembers(members)
    case Alias(body) => 1 + Depth(body)
    case Enum => 0
  }

  lemma DeclLeadsWhereFits(w: World, room: Room, site: Site, target: Site, growth: int)
    requires site in w.decls && site in room && FitsDecl(w, room, site) && DepthOfDecl(w.decls[site]) <= room[site]
    requires DeclLeads(w, site, target, growth)
    ensures target in room && room[site] + growth <= room[target]
  {
    var k: int := room[site];
    match w.decls[site]
    case Interface(members, bases) =>
      if m :| m in members && MemberLeads(w, site.file, m, target, growth) {
        assert FitsMember(w, room, site.file, m, k) && DepthOfMember(m) <= DepthOfMembers(members);
        MemberLeadsWhereFits(w, room, site.file, m, k, target, growth);
      }
    case Alias(body) => LeadsWhereFits(w, room, site.file, body, k, target, growth);
  }

  lemma {:induction false} DeepestDecl(decls: map<Site, Decl>) returns (deepest: nat)
    ensures forall site :: site in decls ==> DepthOfDecl(decls[site]) <= deepest
    decreases |decls|
  {
    deepest := 0;
    if site :| site in decls {
      var rest := DeepestDecl(decls - {site});
      deepest := rest + DepthOfDecl(decls[site]);
      assert forall s :: s in decls && s != site ==> s in decls - {site} && (decls - {site})[s] == decls[s];
    }
  }

  ghost predicate HasRoomFor(w: World, n: nat) {
    exists plan :: IsRoom(w, plan) && forall site :: site in w.decls ==> n <= plan.room[site]
  }

  // There is room for paths of every length exactly if no cycle of references lengthens the path.
  lemma RoomIff(w: World)
    ensures (forall n: nat :: HasRoomFor(w, n)) <==> NoGrowingCycle(w)
  {
    if NoGrowingCycle(w) {
      forall n: nat ensures HasRoomFor(w, n) {
        var plan := RoomExists(w, n);
      }
    }
    var deepest := DeepestDecl(w.decls);
    if HasRoomFor(w, deepest) {
      var plan :| IsRoom(w, plan) && forall site :: site in w.decls ==> deepest <= plan.room[site];
      RoomIsPotential(w, plan);
      PotentialForbids(References(w), w.decls.Keys, plan.room);
    }
  }

  lemma RoomIsPotential(w: World, plan: Plan)
    requires IsRoom(w, plan) && forall site :: site in w.decls ==> DepthOfDecl(w.decls[site]) <= plan.room[site]
    ensures IsPotential(References(w), w.decls.Keys, plan.room)
  {
    forall a, b, g: int | IsHop(References(w), w.decls.Keys, Hop(a, b, g)) ensures plan.room[a] + g <= plan.room[b] {
      assert DeclLeads(w, a, b, g);
      DeclLeadsWhereFits(w, plan.room, a, b, g);
    }
  }

  // ---- The lookup ends ----

  // Within any room, and so without a growing cycle for every path: `enough` nested declarations
  // serve all declarations and all paths of up to n steps.
  lemma EndsWithinRoom(w: World, plan: Plan, site: Site, steps: seq<PathStep>, fuel: nat)
    requires IsRoom(w, plan) && site in w.decls && |steps| <= plan.room[site] && |Visits(w, plan.longest)| < fuel
    ensures LookupDecl(w, site, steps, {}, fuel).Done?
  {
    assert Visits(w, plan.longest) - {} == Visits(w, plan.longest);
    DeclEnds(w, plan, site, steps, {}, fuel);
  }

  lemma LookupEnds(w: World, n: nat) returns (enough: nat)
    requires NoGrowingCycle(w)
    ensures forall site, steps: seq<PathStep>, fuel: nat :: site in w.decls && |steps| <= n && enough <= fuel ==>
              LookupDecl(w, site, steps, {}, fuel).Done?
  {
    var plan := RoomExists(w, n);
    enough := |Visits(w, plan.longest)| + 1;
    forall site, steps: seq<PathStep>, fuel: nat | site in w.decls && |steps| <= n && enough <= fuel
      ensures LookupDecl(w, site, steps, {}, fuel).Done?
    {
      EndsWithinRoom(w, plan, site, steps, fuel);
    }
  }

  // ---- With a growing cycle it may not end ----

  // An alias that is nothing but a literal indexed access to another declaration of the set.
  ghost predicate ForwardsTo(w: World, site: Site, sites: set<Site>) {
    site in w.decls && w.decls[site].Alias? &&
    match w.decls[site].body
    case Indexed(Reference(name, qualified, args), Some(_)) =>
      && !qualified && |args| == 0
      && DeclForTypeName(w, site.file, name).Some? && DeclForTypeName(w, site.file, name).value in sites
    case _ => false
  }

  // Each round lengthens the path, so the guard against visits of equal length never fires.
  lemma {:induction false} ForwardingNeverEnds(w: World, sites: set<Site>, site: Site, steps: seq<PathStep>,
                                               seen: set<Visit>, fuel: nat)
    requires site in sites && forall s :: s in sites ==> ForwardsTo(w, s, sites)
    requires steps != [] && forall v :: v in seen ==> v.left < |steps|
    ensures site in w.decls && LookupDecl(w, site, steps, seen, fuel).OutOfFuel?
    decreases fuel
  {
    assert ForwardsTo(w, site, sites);
    assert Visit(site, |steps|) !in seen;
    if fuel > 0 {
      var body := w.decls[site].body;
      var longer, more := [PathStep.Named(body.key.value)] + steps, seen + {Visit(site, |steps|)};
      ForwardingNeverEnds(w, sites, DeclForTypeName(w, site.file, body.container.head).value, longer, more, fuel - 1);
      assert LookupType(w, site.file, body.container, longer, more, fuel - 1).OutOfFuel?;
      assert LookupType(w, site.file, body, steps, more, fuel - 1).OutOfFuel?;
    }
  }

  // type A = A['x']
  function SelfIndexed(): World {
    World(map[At("A") := Alias(Indexed(Reference("A", false, []), Some("x")))],
          map[At("A") := At("A")], map[], (pattern, key) => false)
  }

  function At(name: string): Site { Site("f", name) }

  lemma SelfIndexedNeverEnds(steps: seq<PathStep>, fuel: nat)
    requires steps != []
    ensures LookupDecl(SelfIndexed(), At("A"), steps, {}, fuel).OutOfFuel?
  {
    assert ForwardsTo(SelfIndexed(), At("A"), {At("A")});
    ForwardingNeverEnds(SelfIndexed(), {At("A")}, At("A"), steps, {}, fuel);
  }

  // type A = { y: A['z'] }['x']
  function Unmatched(): World {
    World(map[At("A") := Alias(Indexed(Literal([Property("y", "y",
                                                         Some(Indexed(Reference("A", false, []), Some("z"))))]),
                                       Some("x")))],
          map[At("A") := At("A")], map[], (pattern, key) => false)
  }

  // A growing cycle alone does not keep the lookup going: a member on the cycle may have another
  // name than the path asks for there.
  lemma UnmatchedCycleEnds(steps: seq<PathStep>, fuel: nat)
    requires steps != [] && fuel > 0
    ensures !NoGrowingCycle(Unmatched()) && LookupDecl(Unmatched(), At("A"), steps, {}, fuel).Done?
  {
    UnmatchedGrows();
    var member := Property("y", "y", Some(Indexed(Reference("A", false, []), Some("z"))));
    var longer := [PathStep.Named("x")] + steps;
    assert FindProperty([member], "x").None? by { assert [member][1..] == []; }
    assert LookupType(Unmatched(), "f", Literal([member]), longer, {} + {Visit(At("A"), |steps|)}, fuel - 1).Done?;
  }

  lemma UnmatchedGrows()
    ensures !NoGrowingCycle(Unmatched())
  {
    var w, round := Unmatched(), [Hop(At("A"), At("A"), 1)];
    UnmatchedLeads();
    assert IsRound(References(w), w.decls.Keys, round) && Growth(round[..0]) == 0 && Growth(round) == 1;
  }

  lemma UnmatchedLeads()
    ensures DeclLeads(Unmatched(), At("A"), At("A"), 1)
  {
    var w := Unmatched();
    var inner := Indexed(Reference("A", false, []), Some("z"));
    var member := Property("y", "y", Some(inner));
    assert NameLeads(w, "f", "A", At("A"), 0);
    assert Leads(w, "f", Reference("A", false, []), At("A"), 0) && Leads(w, "f", inner, At("A"), 1);
    assert MemberLeads(w, "f", member, At("A"), 0) && Leads(w, "f", Literal([member]), At("A"), 0);
    assert w.decls[At("A")] == Alias(Indexed(Literal([member]), Some("x")));
  }

  // type A = C['a']; interface C { a: { m: A } }
  function Recursive(): World {
    World(map[At("A") := Alias(Indexed(Reference("C", false, []), Some("a"))),
              At("C") := Interface([Property("a", "a", Some(Literal([Property("m", "m",
                                                                              Some(Reference("A", false, [])))])))],
                                   [])],
          map[At("A") := At("A"), At("C") := At("C")], map[], (pattern, key) => false)
  }

  // A recursive type may lengthen the path in one reference if the others shorten it again: here
  // by one, and then back by two.
  lemma RecursiveEnds()
    ensures DeclLeads(Recursive(), At("A"), At("C"), 1) && NoGrowingCycle(Recursive())
  {
    var w := Recursive();
    assert Leads(w, "f", Reference("C", false, []), At("C"), 0) by { assert NameLeads(w, "f", "C", At("C"), 0); }
    assert w.decls[At("A")] == Alias(Indexed(Reference("C", false, []), Some("a")));
    var pot := map[At("A") := 0, At("C") := 1];
    forall a, b, g: int | IsHop(References(w), w.decls.Keys, Hop(a, b, g)) ensures pot[a] + g <= pot[b] {
      if a == At("A") { OnlyHopOfA(b, g); } else { OnlyHopOfC(b, g); }
    }
    PotentialForbids(References(w), w.decls.Keys, pot);
  }

  lemma OnlyHopOfA(target: Site, growth: int)
    requires DeclLeads(Recursive(), At("A"), target, growth)
    ensures target == At("C") && growth == 1
  {
    var w := Recursive();
    assert Leads(w, "f", Reference("C", false, []), target, growth - 1);
  }

  lemma OnlyHopOfC(target: Site, growth: int)
    requires DeclLeads(Recursive(), At("C"), target, growth)
    ensures target == At("A") && growth == -2
  {
    var w := Recursive();
    var inner := Property("m", "m", Some(Reference("A", false, [])));
    var member := Property("a", "a", Some(Literal([inner])));
    assert w.decls[At("C")] == Interface([member], []);
    assert MemberLeads(w, "f", member, target, growth) && Leads(w, "f", Literal([inner]), target, growth + 1);
    assert MemberLeads(w, "f", inner, target, growth + 1);
    assert Leads(w, "f", Reference("A", false, []), target, growth + 2);
  }

  // ---- What sharing the visits costs ----

  // interface A extends B, C with B and C both extending D, which is empty: A definitely lacks
  // a key, but the second visit of D answers unknown, and so does the whole lookup.
  function Diamond(): World {
    World(map[At("A") := Interface([], [Base.Named("B"), Base.Named("C")]),
              At("B") := Interface([], [Base.Named("D")]),
              At("C") := Interface([], [Base.Named("D")]),
              At("D") := Interface([], [])],
          map[At("B") := At("B"), At("C") := At("C"), At("D") := At("D")], map[], (pattern, key) => false)
  }

  lemma OneBase(w: World, base: Base, rest: seq<Base>, steps: seq<PathStep>, seen: set<Visit>, fuel: nat)
    requires LookupBase(w, "f", base, steps, seen, fuel).Done?
    requires LookupBases(w, "f", rest, steps, LookupBase(w, "f", base, steps, seen, fuel).seen, fuel).Done?
    ensures var head := LookupBase(w, "f", base, steps, seen, fuel);
      var tail := LookupBases(w, "f", rest, steps, head.seen, fuel);
      LookupBases(w, "f", [base] + rest, steps, seen, fuel) == Done([head.value] + tail.value, tail.seen)
  {
    assert ([base] + rest)[1..] == rest;
  }

  // An interface without members and with one base answers as that base does.
  lemma OneBaseAnswers(w: World, name: string, base: string, key: string, seen: set<Visit>, fuel: nat)
    requires At(name) in w.decls && w.decls[At(name)] == Interface([], [Base.Named(base)])
    requires DeclForTypeName(w, "f", base) == Some(At(base))
    requires fuel > 0 && Visit(At(name), 1) !in seen
    requires LookupDecl(w, At(base), [PathStep.Named(key)], seen + {Visit(At(name), 1)}, fuel - 1).Done?
    requires LookupDecl(w, At(base), [PathStep.Named(key)], seen + {Visit(At(name), 1)}, fuel - 1).value != Found
    ensures LookupDecl(w, At(name), [PathStep.Named(key)], seen, fuel)
         == LookupDecl(w, At(base), [PathStep.Named(key)], seen + {Visit(At(name), 1)}, fuel - 1)
  {
    var steps, more := [PathStep.Named(key)], seen + {Visit(At(name), 1)};
    var r := LookupDecl(w, At(base), steps, more, fuel - 1);
    assert LookupBases(w, "f", [], steps, r.seen, fuel - 1) == Done([], r.seen);
    assert LookupBase(w, "f", Base.Named(base), steps, more, fuel - 1) == r;
    assert [Base.Named(base)] + [] == [Base.Named(base)];
    OneBase(w, Base.Named(base), [], steps, more, fuel - 1);
    assert FindProperty([], key).None?;
    assert r.value in [r.value];
  }

  // An interface without members lacks what all its bases lack.
  lemma BaresLack(site: Site, steps: seq<PathStep>)
    requires site in Diamond().decls && Diamond().decls[site].members == [] && steps != [] && steps[0].Named?
    requires forall b :: b in Diamond().decls[site].bases ==> LacksBase(Diamond(), PlacedBase(site.file, b), steps)
    ensures LacksDecl(Diamond(), site, steps)
  {
    OneInterface(Diamond(), site);
    assert LacksAmong(Diamond(), [], PlaceBases(site.file, Diamond().decls[site].bases), steps);
  }

  lemma DiamondLacks(key: string)
    ensures LacksDecl(Diamond(), At("A"), [PathStep.Named(key)])
  {
    var w, steps := Diamond(), [PathStep.Named(key)];
    BaresLack(At("D"), steps);
    assert LacksBase(w, PlacedBase("f", Base.Named("D")), steps);
    BaresLack(At("B"), steps);
    BaresLack(At("C"), steps);
    assert LacksBase(w, PlacedBase("f", Base.Named("B")), steps)
           && LacksBase(w, PlacedBase("f", Base.Named("C")), steps);
    BaresLack(At("A"), steps);
  }

  // The bases of A: D answers through B, and is refused as seen through C.
  lemma DiamondBases(key: string) returns (after: set<Visit>)
    ensures LookupBases(Diamond(), "f", [Base.Named("B"), Base.Named("C")], [PathStep.Named(key)],
                        {Visit(At("A"), 1)}, 2) == Done([Missing, Unknown], after)
  {
    var w, steps, seenA := Diamond(), [PathStep.Named(key)], {Visit(At("A"), 1)};
    assert FindProperty([], key).None?;
    var seenB := seenA + {Visit(At("B"), 1)};
    var seenD := seenB + {Visit(At("D"), 1)};
    assert LookupDecl(w, At("D"), steps, seenB, 1) == Done(Missing, seenD) by {
      assert LookupBases(w, "f", [], steps, seenD, 0) == Done([], seenD);
    }
    OneBaseAnswers(w, "B", "D", key, seenA, 2);
    var seenC := seenD + {Visit(At("C"), 1)};
    assert LookupDecl(w, At("D"), steps, seenC, 1) == Done(Unknown, seenC);
    OneBaseAnswers(w, "C", "D", key, seenD, 2);
    var bases := [Base.Named("B"), Base.Named("C")];
    assert LookupBase(w, "f", bases[0], steps, seenA, 2) == Done(Missing, seenD);
    assert LookupBase(w, "f", bases[1], steps, seenD, 2) == Done(Unknown, seenC);
    assert LookupBases(w, "f", [], steps, seenC, 2) == Done([], seenC);
    OneBase(w, bases[1], [], steps, seenD, 2);
    assert [bases[1]] + [] == [bases[1]] && [bases[0]] + [bases[1]] == bases;
    assert [Unknown] + [] == [Unknown] && [Missing] + [Unknown] == [Missing, Unknown];
    OneBase(w, bases[0], [bases[1]], steps, seenA, 2);
    after := seenC;
  }

  lemma DiamondIsUnknown(key: string)
    ensures LacksDecl(Diamond(), At("A"), [PathStep.Named(key)])
    ensures LookupDecl(Diamond(), At("A"), [PathStep.Named(key)], {}, 3).Done?
    ensures LookupDecl(Diamond(), At("A"), [PathStep.Named(key)], {}, 3).value == Unknown
  {
    DiamondLacks(key);
    var after := DiamondBases(key);
    assert FindProperty([], key).None?;
    assert {} + {Visit(At("A"), 1)} == {Visit(At("A"), 1)};
    assert Unknown in [Missing, Unknown];
  }
}
