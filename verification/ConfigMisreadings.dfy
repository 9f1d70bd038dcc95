// Declarations written so plainly that the lookup is always right, and declarations about which
// it is wrong.
module ConfigMisreadings {
  import opened Options
  import opened ConfigTypes
  import opened ConfigLookup
  import opened ConfigPresence
  import opened ConfigLookupProofs

  // ---- Plain declarations ----

  // Every member is a property written with the key it declares, or a bare signature, and no key
  // is declared twice.
  ghost predicate PlainMembers(w: World, file: string, members: seq<Member>) {
    && (forall m :: m in members ==> PlainMember(w, file, m))
    && forall m, n :: m in members && n in members && m.Property? && n.Property? && m.key == n.key ==> m == n
  }

  ghost predicate PlainMember(w: World, file: string, m: Member) {
    match m
    case Property(text, key, declared) => text == key && (declared.Some? ==> PlainType(w, file, declared.value))
    case Signature => true
    case _ => false
  }

  ghost predicate PlainType(w: World, file: string, node: TypeNode) {
    !Misread(w, file, node) &&
    match node
    case Literal(members) => PlainMembers(w, file, members)
    case Paren(inner) => PlainType(w, file, inner)
    case Operator(_, inner) => PlainType(w, file, inner)
    case Intersection(parts) => forall p :: p in parts ==> PlainType(w, file, p)
    case Union(first, rest) => PlainType(w, file, first) && forall p :: p in rest ==> PlainType(w, file, p)
    case ArrayOf(element) => PlainType(w, file, element)
    case Indexed(container, _) => PlainType(w, file, container)
    case Reference(_, _, args) => forall a :: a in args ==> PlainType(w, file, a)
    case _ => true
  }

  ghost predicate PlainWorld(w: World) {
    && w.merged == map[]
    && forall site :: site in w.decls ==>
         match w.decls[site]
         case Interface(members, _) => PlainMembers(w, site.file, members)
         case Alias(body) => PlainType(w, site.file, body)
         case Enum => true
  }

  // What governs a name in a plain list is the property the lookup consults.
  lemma PlainConsults(w: World, file: string, members: seq<Member>, q: PlacedMember, name: string)
    requires PlainMembers(w, file, members) && Governs(w, Place(file, members), q, name)
    ensures Consults(file, members, q, name)
  {
    assert PlainMember(w, file, q.member);
    FindsFirstProperty(members, name);
    var found := FindProperty(members, name);
    assert found.Some? ==> PlainMember(w, file, found.value);
  }

  // ---- On plain declarations the walk overlooks nothing ----

  least lemma {:induction false} PlainOverlooksDecl(w: World, site: Site, steps: seq<PathStep>)
    requires OverlooksDecl(w, site, steps)
    ensures !PlainWorld(w)
  {
    if PlainWorld(w) {
      match w.decls[site]
      case Interface(members, bases) =>
        OneInterface(w, site);
        PlainOverlooksAmong(w, site.file, members, bases, Place(site.file, members), PlaceBases(site.file, bases),
                            steps);
      case Alias(body) => PlainOverlooksType(w, site.file, body, steps);
    }
  }

  lemma PlainDirect(w: World, file: string, members: seq<Member>, name: string)
    requires PlainMembers(w, file, members)
    ensures SomeNamed(Place(file, members), name) <==> FindProperty(members, name).Some?
    ensures FindProperty(members, name).Some? ==> FindProperty(members, name).value.key == name
  {
    var found := FindProperty(members, name);
    if found.Some? {
      assert PlainMember(w, file, found.value);
      assert PlacedMember(file, found.value) in Place(file, members);
    }
    if q :| q in Place(file, members) && IsNamed(q.member, name) {
      assert Governs(w, Place(file, members), q, name);
      PlainConsults(w, file, members, q, name);
    }
  }

  least lemma {:induction false} PlainOverlooksAmong(w: World, file: string, members: seq<Member>, bases: seq<Base>,
                                  all: seq<PlacedMember>, allBases: seq<PlacedBase>, steps: seq<PathStep>)
    requires OverlooksAmong(w, file, members, bases, all, allBases, steps)
    ensures !(PlainWorld(w) && PlainMembers(w, file, members) && all == Place(file, members)
              && allBases == PlaceBases(file, bases))
  {
    if PlainWorld(w) && PlainMembers(w, file, members) && all == Place(file, members)
        && allBases == PlaceBases(file, bases) {
      var name := steps[0].member;
      PlainDirect(w, file, members, name);
      forall q | Governs(w, all, q, name) ensures Consults(file, members, q, name) {
        PlainConsults(w, file, members, q, name);
      }
      if q :| Governs(w, all, q, name) && OverlooksRest#[_k - 1](w, file, q.member, steps) {
        assert PlainMember(w, file, q.member);
        PlainOverlooksRest(w, file, q.member, steps);
      } else {
        var b :| b in allBases && OverlooksBase#[_k - 1](w, b, steps);
        PlainOverlooksBase(w, b, steps);
      }
    }
  }

  least lemma {:induction false} PlainOverlooksBase(w: World, b: PlacedBase, steps: seq<PathStep>)
    requires OverlooksBase(w, b, steps)
    ensures !PlainWorld(w)
  {
    PlainOverlooksDecl(w, DeclForTypeName(w, b.file, b.base.name).value, steps);
  }

  least lemma {:induction false} PlainOverlooksRest(w: World, file: string, m: Member, steps: seq<PathStep>)
    requires OverlooksRest(w, file, m, steps)
    ensures !(PlainWorld(w) && PlainMember(w, file, m))
  {
    PlainOverlooksType(w, file, m.declared.value, steps[1..]);
  }

  least lemma {:induction false} PlainOverlooksType(w: World, file: string, node: TypeNode, steps: seq<PathStep>)
    requires OverlooksType(w, file, node, steps)
    ensures !(PlainWorld(w) && PlainType(w, file, node))
  {
    if PlainWorld(w) && PlainType(w, file, node) {
      match node
      case Literal(members) =>
        PlainOverlooksAmong(w, file, members, [], Place(file, members), [], steps);
      case Paren(inner) => PlainOverlooksType(w, file, inner, steps);
      case Operator(_, inner) => PlainOverlooksType(w, file, inner, steps);
      case Intersection(parts) =>
        var p :| p in parts && OverlooksType#[_k - 1](w, file, p, steps);
        PlainOverlooksType(w, file, p, steps);
      case Union(first, rest) =>
        if OverlooksType#[_k - 1](w, file, first, steps) {
          PlainOverlooksType(w, file, first, steps);
        } else {
          var p :| p in rest && OverlooksType#[_k - 1](w, file, p, steps);
          PlainOverlooksType(w, file, p, steps);
        }
      case ArrayOf(element) => PlainOverlooksType(w, file, element, steps[1..]);
      case Indexed(container, key) => PlainOverlooksType(w, file, container, [PathStep.Named(key.value)] + steps);
      case Reference(head, _, args) =>
        if IsPassthrough(head) && args != [] {
          PlainOverlooksType(w, file, args[0], steps);
        } else if IsArrayName(head) && args != [] {
          PlainOverlooksType(w, file, args[0], steps[1..]);
        } else {
          PlainOverlooksDecl(w, DeclForTypeName(w, file, head).value, steps);
        }
    }
  }

  // ---- nor is it misled ----

  least lemma {:induction false} PlainMisleadsDecl(w: World, site: Site, steps: seq<PathStep>)
    requires MisleadsDecl(w, site, steps)
    ensures !PlainWorld(w)
  {
    if PlainWorld(w) {
      match w.decls[site]
      case Interface(members, bases) =>
        OneInterface(w, site);
        PlainMisleadsAmong(w, site.file, members, bases, true, Place(site.file, members),
                           PlaceBases(site.file, bases), steps);
      case Alias(body) => PlainMisleadsType(w, site.file, body, steps);
    }
  }

  least lemma {:induction false} PlainMisleadsAmong(w: World, file: string, members: seq<Member>, bases: seq<Base>,
                                                    complete: bool,
                                 all: seq<PlacedMember>, allBases: seq<PlacedBase>, steps: seq<PathStep>)
    requires MisleadsAmong(w, file, members, bases, complete, all, allBases, steps)
    ensures !(PlainWorld(w) && PlainMembers(w, file, members) && complete && all == Place(file, members))
  {
    if PlainWorld(w) && PlainMembers(w, file, members) && complete && all == Place(file, members) {
      PlainDirect(w, file, members, steps[0].member);
      match FindProperty(members, steps[0].member)
      case Some(direct) =>
        assert PlainMember(w, file, direct);
        PlainMisleadsRest(w, file, direct, steps);
      case None =>
        var b :| b in PlaceBases(file, bases) && MisleadsBase#[_k - 1](w, b, steps);
        PlainMisleadsBase(w, b, steps);
    }
  }

  least lemma {:induction false} PlainMisleadsBase(w: World, b: PlacedBase, steps: seq<PathStep>)
    requires MisleadsBase(w, b, steps)
    ensures !PlainWorld(w)
  {
    PlainMisleadsDecl(w, DeclForTypeName(w, b.file, b.base.name).value, steps);
  }

  least lemma {:induction false} PlainMisleadsRest(w: World, file: string, m: Member, steps: seq<PathStep>)
    requires MisleadsRest(w, file, m, steps)
    ensures !(PlainWorld(w) && PlainMember(w, file, m))
  {
    PlainMisleadsType(w, file, m.declared.value, steps[1..]);
  }

  least lemma {:induction false} PlainMisleadsType(w: World, file: string, node: TypeNode, steps: seq<PathStep>)
    requires MisleadsType(w, file, node, steps)
    ensures !(PlainWorld(w) && PlainType(w, file, node))
  {
    if PlainWorld(w) && PlainType(w, file, node) {
      match node
      case Literal(members) =>
        PlainMisleadsAmong(w, file, members, [], true, Place(file, members), [], steps);
      case Paren(inner) => PlainMisleadsType(w, file, inner, steps);
      case Operator(_, inner) => PlainMisleadsType(w, file, inner, steps);
      case Intersection(parts) =>
        var p :| p in parts && MisleadsType#[_k - 1](w, file, p, steps);
        PlainMisleadsType(w, file, p, steps);
      case Union(first, rest) =>
        if MisleadsType#[_k - 1](w, file, first, steps) {
          PlainMisleadsType(w, file, first, steps);
        } else {
          var p :| p in rest && MisleadsType#[_k - 1](w, file, p, steps);
          PlainMisleadsType(w, file, p, steps);
        }
      case ArrayOf(element) => PlainMisleadsType(w, file, element, steps[1..]);
      case Indexed(container, key) => PlainMisleadsType(w, file, container, [PathStep.Named(key.value)] + steps);
      case Reference(head, _, args) =>
        if IsPassthrough(head) && args != [] {
          PlainMisleadsType(w, file, args[0], steps);
        } else if IsArrayName(head) && args != [] {
          PlainMisleadsType(w, file, args[0], steps[1..]);
        } else {
          PlainMisleadsDecl(w, DeclForTypeName(w, file, head).value, steps);
        }
    }
  }

  // ---- When the lookup is right ----

  // On every declaration and path, whatever visits preceded the call: missing is right exactly if
  // the walk overlooks nothing, found is right unless it is misled, and on plain declarations
  // both are always right.
  lemma LookupIsRight(w: World, site: Site, steps: seq<PathStep>, seen: set<Visit>, fuel: nat)
    requires site in w.decls
    ensures var r := LookupDecl(w, site, steps, seen, fuel);
      && (IsMissing(r) ==> (LacksDecl(w, site, steps) <==> !OverlooksDecl(w, site, steps)))
      && (IsFound(r) ==> HasDecl(w, site, steps) || MisleadsDecl(w, site, steps))
      && (PlainWorld(w) && IsMissing(r) ==> LacksDecl(w, site, steps) && !HasDecl(w, site, steps))
      && (PlainWorld(w) && IsFound(r) ==> HasDecl(w, site, steps) && !LacksDecl(w, site, steps))
  {
    var r := LookupDecl(w, site, steps, seen, fuel);
    if IsMissing(r) { MissingDeclIff(w, site, steps, seen, fuel); }
    if IsFound(r) { FoundDecl(w, site, steps, seen, fuel); }
    PresenceIsExclusive(w, site, "", OtherType, steps);
    if OverlooksDecl(w, site, steps) { PlainOverlooksDecl(w, site, steps); }
    if MisleadsDecl(w, site, steps) { PlainMisleadsDecl(w, site, steps); }
  }

  // ---- A single key of an interface ----

  // The member admits the key by its pattern, or is a method or property called that.
  ghost predicate DeclaresKey(w: World, m: Member, name: string) {
    match m
    case Index(pattern, _) => w.admits(pattern, name)
    case Method(key) => key == name
    case Property(_, key, _) => key == name
    case Signature => false
  }

  // The plainest case, as a check on the declaration alone: an interface without bases and merged
  // parts answers missing exactly if no property is written with the name, and that is right
  // exactly if no member at all declares it. Otherwise the interface declares the key.
  lemma MissingKeyIff(w: World, site: Site, name: string, fuel: nat)
    requires IsInterface(w, site) && w.decls[site].bases == [] && site !in w.merged && fuel > 0
    ensures var members, steps := w.decls[site].members, [PathStep.Named(name)];
      var missing := IsMissing(LookupDecl(w, site, steps, {}, fuel));
      && (missing <==> forall m :: m in members ==> !IsPropertyOf(m, name))
      && (missing ==> (LacksDecl(w, site, steps) <==> forall m :: m in members ==> !DeclaresKey(w, m, name)))
      && (missing ==> (HasDecl(w, site, steps) <==> exists m :: m in members && DeclaresKey(w, m, name)))
  {
    var members, steps := w.decls[site].members, [PathStep.Named(name)];
    FindsFirstProperty(members, name);
    assert LookupBases(w, site.file, [], steps, {Visit(site, 1)}, fuel - 1) == Done([], {Visit(site, 1)});
    OneInterface(w, site);
    SingleKey(w, site.file, members, steps);
  }

  lemma SingleKey(w: World, file: string, members: seq<Member>, steps: seq<PathStep>)
    requires |steps| == 1 && steps[0].Named?
    ensures LacksAmong(w, Place(file, members), [], steps)
            <==> forall m :: m in members ==> !DeclaresKey(w, m, steps[0].member)
    ensures HasAmong(w, true, Place(file, members), [], steps)
            <==> exists m :: m in members && DeclaresKey(w, m, steps[0].member)
  {
    var all, name := Place(file, members), steps[0].member;
    assert forall m :: m in members ==> (DeclaresKey(w, m, name) <==> Covers(w, m, name));
    if m :| m in members && Covers(w, m, name) {
      var q := PlacedMember(file, m);
      assert q in all;
      if q' :| q' in all && IsNamed(q'.member, name) {
        assert Governs(w, all, q', name) && HasRest(w, q'.file, q'.member, steps);
      } else {
        assert Governs(w, all, q, name) && HasRest(w, q.file, q.member, steps);
      }
      assert HasAmong(w, true, all, [], steps);
    }
    if HasAmong(w, true, all, [], steps) { NeverBothAmong(w, true, all, [], steps); }
  }

  // ---- Declarations about which the lookup is wrong ----

  const B: Member := Property("b", "b", None)

  // An index signature, a method, a quoted key, and the members of `keyof`.
  function OddWorld(): World {
    World(map[In("Dict") := Interface([Index("string", OtherType)], []),
              In("Runner") := Interface([Method("run")], []),
              In("Quoted") := Interface([Property("'a-b'", "a-b", None)], []),
              In("Keys") := Alias(Operator(KeyOf, Literal([B])))],
          map[], map[], (pattern, key) => pattern == "string")
  }

  // A member of a second declaration of the name.
  function MergedWorld(): World {
    World(map[In("Twice") := Interface([], []), In("TwiceAgain") := Interface([B], [])],
          map[], map[In("Twice") := [In("TwiceAgain")]], (pattern, key) => false)
  }

  // A declared type called Partial.
  function PartialWorld(): World {
    World(map[In("Partial") := Alias(Literal([])), In("Own") := Alias(Reference("Partial", false, [Literal([B])]))],
          map[In("Partial") := In("Partial")], map[], (pattern, key) => false)
  }

  // A type parameter called like a type.
  function ParameterWorld(): World {
    World(map[In("T") := Alias(Literal([B])), In("Box") := Alias(Parameter("T"))],
          map[In("T") := In("T")], map[], (pattern, key) => false)
  }

  function In(name: string): Site { Site("f", name) }

  lemma LiteralHasB(w: World, file: string, seen: set<Visit>, fuel: nat)
    ensures LookupType(w, file, Literal([B]), [PathStep.Named("b")], seen, fuel) == Done(Found, seen)
    ensures HasType(w, file, Literal([B]), [PathStep.Named("b")])
  {
    assert FindProperty([B], "b") == Some(B);
    SingleKey(w, file, [B], [PathStep.Named("b")]);
    assert Covers(w, B, "b");
  }

  lemma AliasAnswers(w: World, site: Site, steps: seq<PathStep>, seen: set<Visit>, fuel: nat)
    requires site in w.decls && w.decls[site].Alias? && steps != [] && fuel > 0 && Visit(site, |steps|) !in seen
    ensures LookupDecl(w, site, steps, seen, fuel)
         == LookupType(w, site.file, w.decls[site].body, steps, seen + {Visit(site, |steps|)}, fuel - 1)
  {
  }

  lemma IndexKeyIsMissed(name: string, fuel: nat)
    requires fuel > 0
    ensures IsMissing(LookupDecl(OddWorld(), In("Dict"), [PathStep.Named(name)], {}, fuel))
    ensures HasDecl(OddWorld(), In("Dict"), [PathStep.Named(name)])
  {
    MissingKeyIff(OddWorld(), In("Dict"), name, fuel);
    assert DeclaresKey(OddWorld(), Index("string", OtherType), name);
  }

  lemma MethodIsMissed(fuel: nat)
    requires fuel > 0
    ensures IsMissing(LookupDecl(OddWorld(), In("Runner"), [PathStep.Named("run")], {}, fuel))
    ensures HasDecl(OddWorld(), In("Runner"), [PathStep.Named("run")])
  {
    MissingKeyIff(OddWorld(), In("Runner"), "run", fuel);
    assert DeclaresKey(OddWorld(), Method("run"), "run");
  }

  lemma QuotedKeyIsMissed(fuel: nat)
    requires fuel > 0
    ensures IsMissing(LookupDecl(OddWorld(), In("Quoted"), [PathStep.Named("a-b")], {}, fuel))
    ensures HasDecl(OddWorld(), In("Quoted"), [PathStep.Named("a-b")])
  {
    MissingKeyIff(OddWorld(), In("Quoted"), "a-b", fuel);
    assert DeclaresKey(OddWorld(), Property("'a-b'", "a-b", None), "a-b");
  }

  lemma MergedKeyIsMissed(fuel: nat)
    requires fuel > 0
    ensures IsMissing(LookupDecl(MergedWorld(), In("Twice"), [PathStep.Named("b")], {}, fuel))
    ensures HasDecl(MergedWorld(), In("Twice"), [PathStep.Named("b")])
  {
    EmptyIsMissing(MergedWorld(), In("Twice"), "b", fuel);
    MergedHasB();
  }

  lemma EmptyIsMissing(w: World, site: Site, key: string, fuel: nat)
    requires site in w.decls && w.decls[site] == Interface([], []) && fuel > 0
    ensures IsMissing(LookupDecl(w, site, [PathStep.Named(key)], {}, fuel))
  {
    var seen := {} + {Visit(site, 1)};
    assert LookupBases(w, site.file, [], [PathStep.Named(key)], seen, fuel - 1) == Done([], seen);
  }

  lemma MergedHasB()
    ensures HasDecl(MergedWorld(), In("Twice"), [PathStep.Named("b")])
  {
    var w, steps := MergedWorld(), [PathStep.Named("b")];
    var all := MembersOf(w, PartsOf(w, In("Twice")));
    MergedMembers();
    assert Governs(w, all, PlacedMember("f", B), "b");
    assert HasRest(w, "f", B, steps);
    assert HasAmong(w, Complete(w, In("Twice")), all, BasesOf(w, PartsOf(w, In("Twice"))), steps);
  }

  lemma MergedMembers()
    ensures MembersOf(MergedWorld(), PartsOf(MergedWorld(), In("Twice"))) == [PlacedMember("f", B)]
  {
    var w := MergedWorld();
    assert PartsOf(w, In("Twice")) == [In("Twice"), In("TwiceAgain")];
    assert [In("Twice"), In("TwiceAgain")][1..] == [In("TwiceAgain")] && [In("TwiceAgain")][1..] == [];
    assert MembersOf(w, [In("TwiceAgain")]) == Place("f", [B]);
    assert [B][1..] == [];
  }

  lemma KeyofIsFound(fuel: nat)
    requires fuel > 0
    ensures IsFound(LookupDecl(OddWorld(), In("Keys"), [PathStep.Named("b")], {}, fuel))
    ensures !HasDecl(OddWorld(), In("Keys"), [PathStep.Named("b")])
  {
    var w, site := OddWorld(), In("Keys");
    AliasAnswers(w, site, [PathStep.Named("b")], {}, fuel);
    LiteralHasB(w, "f", {} + {Visit(site, 1)}, fuel - 1);
    assert w.decls[site] == Alias(Operator(KeyOf, Literal([B])));
    assert !HasType(w, "f", w.decls[site].body, [PathStep.Named("b")]);
  }

  lemma OwnPartialIsFound(fuel: nat)
    requires fuel > 0
    ensures IsFound(LookupDecl(PartialWorld(), In("Own"), [PathStep.Named("b")], {}, fuel))
    ensures LacksDecl(PartialWorld(), In("Own"), [PathStep.Named("b")])
  {
    var w, steps := PartialWorld(), [PathStep.Named("b")];
    var args := [Literal([B])];
    assert w.decls[In("Own")] == Alias(Reference("Partial", false, args))
           && w.decls[In("Partial")] == Alias(Literal([]));
    AliasAnswers(w, In("Own"), steps, {}, fuel);
    LiteralHasB(w, "f", {} + {Visit(In("Own"), 1)}, fuel - 1);
    assert LacksAmong(w, Place("f", []), [], steps);
    assert LacksType(w, "f", Literal([]), steps);
    assert LacksDecl(w, In("Partial"), steps);
    assert LacksType(w, "f", Reference("Partial", false, [Literal([B])]), steps);
  }

  lemma ParameterIsFound(fuel: nat)
    requires fuel > 1
    ensures IsFound(LookupDecl(ParameterWorld(), In("Box"), [PathStep.Named("b")], {}, fuel))
    ensures !HasDecl(ParameterWorld(), In("Box"), [PathStep.Named("b")])
  {
    var w, steps := ParameterWorld(), [PathStep.Named("b")];
    assert w.decls[In("Box")] == Alias(Parameter("T")) && w.decls[In("T")] == Alias(Literal([B]));
    var seen := {} + {Visit(In("Box"), 1)};
    AliasAnswers(w, In("Box"), steps, {}, fuel);
    AliasAnswers(w, In("T"), steps, seen, fuel - 1);
    LiteralHasB(w, "f", seen + {Visit(In("T"), 1)}, fuel - 2);
    assert !HasType(w, "f", Parameter("T"), steps);
  }

  // Being misled does not make found wrong: another part of an intersection may declare the path.
  lemma MisledYetRight(w: World, file: string, seen: set<Visit>, fuel: nat)
    ensures var node, steps := Intersection([Operator(KeyOf, Literal([B])), Literal([B])]), [PathStep.Named("b")];
      && IsFound(LookupType(w, file, node, steps, seen, fuel))
      && MisleadsType(w, file, node, steps) && HasType(w, file, node, steps)
  {
    var keys, plain, steps := Operator(KeyOf, Literal([B])), Literal([B]), [PathStep.Named("b")];
    var parts := [keys, plain];
    LiteralHasB(w, file, seen, fuel);
    assert LookupType(w, file, keys, steps, seen, fuel) == Done(Found, seen);
    assert LookupAll(w, file, [], steps, seen, fuel) == Done([], seen);
    assert parts[1..] == [plain] && [plain][1..] == [];
    assert LookupAll(w, file, [plain], steps, seen, fuel) == Done([Found] + [], seen);
    var r := LookupAll(w, file, parts, steps, seen, fuel);
    assert r.Done? && r.value[0] == Found;
    assert !HasType(w, file, keys, steps) && MisleadsType(w, file, keys, steps);
    assert keys in parts && plain in parts;
  }
}
