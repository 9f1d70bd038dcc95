// What it means for a declared type to have, or definitely to lack, a member path, as the
// language has it: by the members themselves, all of them, and without the lookup, its scan of a
// member list, its visits and its answers. What the tooling cannot decide (an external type, a
// primitive, a type parameter) neither has nor lacks a member.
module ConfigPresence {
  import opened ConfigTypes

  datatype PlacedMember = PlacedMember(file: string, member: Member)
  datatype PlacedBase = PlacedBase(file: string, base: Base)

  predicate IsNamed(m: Member, name: string) {
    (m.Property? || m.Method?) && m.key == name
  }

  // A property or method declares its key, an index signature every key it admits.
  predicate Covers(w: World, m: Member, name: string) {
    IsNamed(m, name) || (m.Index? && w.admits(m.pattern, name))
  }

  ghost predicate SomeNamed(all: seq<PlacedMember>, name: string) {
    exists q :: q in all && IsNamed(q.member, name)
  }

  // A member named directly is what its key means; only without one do index signatures speak.
  ghost predicate Governs(w: World, all: seq<PlacedMember>, q: PlacedMember, name: string) {
    q in all && if SomeNamed(all, name) then IsNamed(q.member, name) else Covers(w, q.member, name)
  }

  function Place(file: string, members: seq<Member>): (r: seq<PlacedMember>)
    ensures forall q :: q in r <==> q.file == file && q.member in members
  {
    if members == [] then [] else [PlacedMember(file, members[0])] + Place(file, members[1..])
  }

  function PlaceBases(file: string, bases: seq<Base>): (r: seq<PlacedBase>)
    ensures forall b :: b in r <==> b.file == file && b.base in bases
  {
    if bases == [] then [] else [PlacedBase(file, bases[0])] + PlaceBases(file, bases[1..])
  }

  // ---- A declaration together with those merged into it ----

  function PartsOf(w: World, site: Site): seq<Site> {
    [site] + if site in w.merged then w.merged[site] else []
  }

  predicate IsInterface(w: World, site: Site) {
    site in w.decls && w.decls[site].Interface?
  }

  // All parts are interfaces; a class, say, may declare members that are not given here.
  ghost predicate Complete(w: World, site: Site) {
    forall part :: part in PartsOf(w, site) ==> IsInterface(w, part)
  }

  function MembersOf(w: World, parts: seq<Site>): seq<PlacedMember> {
    if parts == [] then []
    else (if IsInterface(w, parts[0]) then Place(parts[0].file, w.decls[parts[0]].members) else [])
         + MembersOf(w, parts[1..])
  }

  function BasesOf(w: World, parts: seq<Site>): seq<PlacedBase> {
    if parts == [] then []
    else (if IsInterface(w, parts[0]) then PlaceBases(parts[0].file, w.decls[parts[0]].bases) else [])
         + BasesOf(w, parts[1..])
  }

  lemma OneInterface(w: World, site: Site)
    requires IsInterface(w, site) && site !in w.merged
    ensures Complete(w, site)
    ensures MembersOf(w, PartsOf(w, site)) == Place(site.file, w.decls[site].members)
    ensures BasesOf(w, PartsOf(w, site)) == PlaceBases(site.file, w.decls[site].bases)
  {
    assert PartsOf(w, site) == [site] && [site][1..] == [];
  }

  // ---- What a name stands for ----

  // A name used in a file stands for a declaration, in whatever file that is.
  predicate IsDeclared(w: World, file: string, name: string) {
    Site(file, name) in w.resolved && w.resolved[Site(file, name)] in w.decls
  }

  // The types of the language with the members of their argument, and those with its elements.
  predicate KeepsMembers(head: string) {
    head in ["Partial", "Required", "Readonly", "NonNullable"]
  }

  predicate ListsElements(head: string) {
    head in ["Array", "ReadonlyArray"]
  }

  // ---- Lacking ----

  least predicate LacksDecl(w: World, site: Site, steps: seq<PathStep>) {
    steps != [] && site in w.decls &&
    match w.decls[site]
    case Interface(_, _) =>
      && steps[0].Named? && Complete(w, site)
      && LacksAmong(w, MembersOf(w, PartsOf(w, site)), BasesOf(w, PartsOf(w, site)), steps)
    case Alias(body) => LacksType(w, site.file, body, steps)
    case Enum => false
  }

  least predicate LacksAmong(w: World, all: seq<PlacedMember>, bases: seq<PlacedBase>, steps: seq<PathStep>) {
    && steps != [] && steps[0].Named?
    && (forall q :: Governs(w, all, q, steps[0].member) ==> LacksRest(w, q.file, q.member, steps))
    && (SomeNamed(all, steps[0].member) || forall b :: b in bases ==> LacksBase(w, b, steps))
  }

  least predicate LacksBase(w: World, b: PlacedBase, steps: seq<PathStep>) {
    && b.base.Named? && IsDeclared(w, b.file, b.base.name)
    && LacksDecl(w, w.resolved[Site(b.file, b.base.name)], steps)
  }

  least predicate LacksRest(w: World, file: string, m: Member, steps: seq<PathStep>) {
    |steps| > 1 &&
    match m
    case Property(_, _, declared) => declared.Some? && LacksType(w, file, declared.value, steps[1..])
    case Index(_, value) => LacksType(w, file, value, steps[1..])
    case _ => false
  }

  least predicate LacksType(w: World, file: string, node: TypeNode, steps: seq<PathStep>) {
    steps != [] &&
    match node
    case Literal(members) => LacksAmong(w, Place(file, members), [], steps)
    case Paren(inner) => LacksType(w, file, inner, steps)
    case Operator(op, inner) => op == ReadonlyOf && LacksType(w, file, inner, steps)
    case Intersection(parts) => forall p :: p in parts ==> LacksType(w, file, p, steps)
    case Union(first, rest) =>
      LacksType(w, file, first, steps) && forall p :: p in rest ==> LacksType(w, file, p, steps)
    case ArrayOf(element) => steps[0].Element? && LacksType(w, file, element, steps[1..])
    case Indexed(container, key) =>
      key.Some? && LacksType(w, file, container, [PathStep.Named(key.value)] + steps)
    case Reference(head, qualified, args) =>
      !qualified &&
      (if Site(file, head) in w.resolved then
         IsDeclared(w, file, head) && LacksDecl(w, w.resolved[Site(file, head)], steps)
       else
         && args != []
         && (|| (KeepsMembers(head) && LacksType(w, file, args[0], steps))
             || (ListsElements(head) && steps[0].Element? && LacksType(w, file, args[0], steps[1..]))))
    case _ => false
  }

  // ---- Having ----

  least predicate HasDecl(w: World, site: Site, steps: seq<PathStep>) {
    steps == [] ||
    (site in w.decls &&
     match w.decls[site]
     case Interface(_, _) =>
       HasAmong(w, Complete(w, site), MembersOf(w, PartsOf(w, site)), BasesOf(w, PartsOf(w, site)), steps)
     case Alias(body) => HasType(w, site.file, body, steps)
     case Enum => false)
  }

  // Without a member named so, the bases decide, and after them the index signatures.
  least predicate HasAmong(w: World, complete: bool, all: seq<PlacedMember>, bases: seq<PlacedBase>,
                           steps: seq<PathStep>)
  {
    steps != [] && steps[0].Named? &&
    var name := steps[0].member;
    if SomeNamed(all, name) then exists q :: Governs(w, all, q, name) && HasRest(w, q.file, q.member, steps)
    else
      complete &&
      (|| (exists b :: b in bases && HasBase(w, b, steps))
       || (&& (exists q :: Governs(w, all, q, name) && HasRest(w, q.file, q.member, steps))
           && forall b :: b in bases ==> LacksBase(w, b, [steps[0]])))
  }

  least predicate HasBase(w: World, b: PlacedBase, steps: seq<PathStep>) {
    && b.base.Named? && IsDeclared(w, b.file, b.base.name)
    && HasDecl(w, w.resolved[Site(b.file, b.base.name)], steps)
  }

  least predicate HasRest(w: World, file: string, m: Member, steps: seq<PathStep>) {
    |steps| == 1 ||
    (|steps| > 1 &&
     match m
     case Property(_, _, declared) => declared.Some? && HasType(w, file, declared.value, steps[1..])
     case Index(_, value) => HasType(w, file, value, steps[1..])
     case _ => false)
  }

  least predicate HasType(w: World, file: string, node: TypeNode, steps: seq<PathStep>) {
    steps == [] ||
    match node
    case Literal(members) => HasAmong(w, true, Place(file, members), [], steps)
    case Paren(inner) => HasType(w, file, inner, steps)
    case Operator(op, inner) => op == ReadonlyOf && HasType(w, file, inner, steps)
    case Intersection(parts) => exists p :: p in parts && HasType(w, file, p, steps)
    case Union(first, rest) =>
      HasType(w, file, first, steps) && forall p :: p in rest ==> HasType(w, file, p, steps)
    case ArrayOf(element) => steps[0].Element? && HasType(w, file, element, steps[1..])
    case Indexed(container, key) =>
      key.Some? && HasType(w, file, container, [PathStep.Named(key.value)] + steps)
    case Reference(head, qualified, args) =>
      !qualified &&
      (if Site(file, head) in w.resolved then
         IsDeclared(w, file, head) && HasDecl(w, w.resolved[Site(file, head)], steps)
       else
         && args != []
         && (|| (KeepsMembers(head) && HasType(w, file, args[0], steps))
             || (ListsElements(head) && steps[0].Element? && HasType(w, file, args[0], steps[1..]))))
    case _ => false
  }

  // ---- The two exclude each other ----

  least lemma {:induction false} NeverBothDecl(w: World, site: Site, steps: seq<PathStep>)
    requires HasDecl(w, site, steps)
    ensures !LacksDecl(w, site, steps)
  {
    if steps != [] {
      match w.decls[site]
      case Interface(_, _) =>
        NeverBothAmong(w, Complete(w, site), MembersOf(w, PartsOf(w, site)), BasesOf(w, PartsOf(w, site)), steps);
      case Alias(body) => NeverBothType(w, site.file, body, steps);
    }
  }

  least lemma {:induction false} NeverBothAmong(w: World, complete: bool, all: seq<PlacedMember>,
                                                bases: seq<PlacedBase>,
                             steps: seq<PathStep>)
    requires HasAmong(w, complete, all, bases, steps)
    ensures !LacksAmong(w, all, bases, steps)
  {
    var name := steps[0].member;
    if q :| Governs(w, all, q, name) && HasRest#[_k - 1](w, q.file, q.member, steps) {
      NeverBothRest(w, q.file, q.member, steps);
    } else {
      var b :| b in bases && HasBase#[_k - 1](w, b, steps);
      NeverBothBase(w, b, steps);
    }
  }

  least lemma {:induction false} NeverBothBase(w: World, b: PlacedBase, steps: seq<PathStep>)
    requires HasBase(w, b, steps)
    ensures !LacksBase(w, b, steps)
  {
    NeverBothDecl(w, w.resolved[Site(b.file, b.base.name)], steps);
  }

  least lemma {:induction false} NeverBothRest(w: World, file: string, m: Member, steps: seq<PathStep>)
    requires HasRest(w, file, m, steps)
    ensures !LacksRest(w, file, m, steps)
  {
    if |steps| > 1 {
      match m
      case Property(_, _, declared) => NeverBothType(w, file, declared.value, steps[1..]);
      case Index(_, value) => NeverBothType(w, file, value, steps[1..]);
    }
  }

  least lemma {:induction false} NeverBothType(w: World, file: string, node: TypeNode, steps: seq<PathStep>)
    requires HasType(w, file, node, steps)
    ensures !LacksType(w, file, node, steps)
  {
    if steps != [] {
      match node
      case Literal(members) => NeverBothAmong(w, true, Place(file, members), [], steps);
      case Paren(inner) => NeverBothType(w, file, inner, steps);
      case Operator(_, inner) => NeverBothType(w, file, inner, steps);
      case Intersection(parts) =>
        var p :| p in parts && HasType#[_k - 1](w, file, p, steps);
        NeverBothType(w, file, p, steps);
      case Union(first, rest) => NeverBothType(w, file, first, steps);
      case ArrayOf(element) => NeverBothType(w, file, element, steps[1..]);
      case Indexed(container, key) =>
        NeverBothType(w, file, container, [PathStep.Named(key.value)] + steps);
      case Reference(head, _, args) =>
        if Site(file, head) in w.resolved {
          NeverBothDecl(w, w.resolved[Site(file, head)], steps);
        } else if KeepsMembers(head) {
          NeverBothType(w, file, args[0], steps);
        } else {
          NeverBothType(w, file, args[0], steps[1..]);
        }
    }
  }

  // For every declaration and path, and every type node.
  lemma PresenceIsExclusive(w: World, site: Site, file: string, node: TypeNode, steps: seq<PathStep>)
    ensures !(HasDecl(w, site, steps) && LacksDecl(w, site, steps))
    ensures !(HasType(w, file, node, steps) && LacksType(w, file, node, steps))
  {
    if HasDecl(w, site, steps) { NeverBothDecl(w, site, steps); }
    if HasType(w, file, node, steps) { NeverBothType(w, file, node, steps); }
  }
}
