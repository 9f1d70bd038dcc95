// The answer of a lookup does not depend on the fuel, and hardly on the visits before it.
module ConfigFuel {
  import opened Options
  import opened ConfigTypes
  import opened ConfigLookup
  import opened ConfigLookupProofs

  // ---- More fuel changes no answer ----

  lemma {:induction false} DeclMoreFuel(w: World, site: Site, steps: seq<PathStep>, seen: set<Visit>, fuel: nat)
    requires site in w.decls && LookupDecl(w, site, steps, seen, fuel).Done?
    ensures LookupDecl(w, site, steps, seen, fuel + 1) == LookupDecl(w, site, steps, seen, fuel)
    decreases fuel, 0
  {
    var more := seen + {Visit(site, |steps|)};
    if steps != [] && Visit(site, |steps|) !in seen {
      match w.decls[site]
      case Interface(members, bases) =>
        if steps[0].Named? {
          var direct := FindProperty(members, steps[0].member);
          if direct.Some? {
            PropertyMoreFuel(w, site.file, direct.value, steps, more, fuel - 1);
          } else {
            BasesMoreFuel(w, site.file, bases, steps, more, fuel - 1);
          }
        }
      case Alias(body) => TypeMoreFuel(w, site.file, body, steps, more, fuel - 1);
      case Enum =>
    }
  }

  lemma {:induction false} PropertyMoreFuel(w: World, file: string, m: Member, steps: seq<PathStep>, seen: set<Visit>,
                                            fuel: nat)
    requires m.Property? && steps != [] && LookupProperty(w, file, m, steps, seen, fuel).Done?
    ensures LookupProperty(w, file, m, steps, seen, fuel + 1) == LookupProperty(w, file, m, steps, seen, fuel)
    decreases fuel, 1, m
  {
    if |steps| > 1 && m.declared.Some? { TypeMoreFuel(w, file, m.declared.value, steps[1..], seen, fuel); }
  }

  lemma {:induction false} BasesMoreFuel(w: World, file: string, bases: seq<Base>, steps: seq<PathStep>,
                                         seen: set<Visit>, fuel: nat)
    requires LookupBases(w, file, bases, steps, seen, fuel).Done?
    ensures LookupBases(w, file, bases, steps, seen, fuel + 1) == LookupBases(w, file, bases, steps, seen, fuel)
    decreases fuel, 1, bases
  {
    if bases != [] {
      var name := if bases[0].Named? then DeclForTypeName(w, file, bases[0].name) else None;
      if name.Some? { DeclMoreFuel(w, name.value, steps, seen, fuel); }
      BasesMoreFuel(w, file, bases[1..], steps, LookupBase(w, file, bases[0], steps, seen, fuel).seen, fuel);
    }
  }

  lemma {:induction false} AllMoreFuel(w: World, file: string, types: seq<TypeNode>, steps: seq<PathStep>,
                                       seen: set<Visit>, fuel: nat)
    requires LookupAll(w, file, types, steps, seen, fuel).Done?
    ensures LookupAll(w, file, types, steps, seen, fuel + 1) == LookupAll(w, file, types, steps, seen, fuel)
    decreases fuel, 1, types
  {
    if types != [] {
      TypeMoreFuel(w, file, types[0], steps, seen, fuel);
      AllMoreFuel(w, file, types[1..], steps, LookupType(w, file, types[0], steps, seen, fuel).seen, fuel);
    }
  }

  lemma {:induction false} TypeMoreFuel(w: World, file: string, node: TypeNode, steps: seq<PathStep>, seen: set<Visit>,
                                        fuel: nat)
    requires LookupType(w, file, node, steps, seen, fuel).Done?
    ensures LookupType(w, file, node, steps, seen, fuel + 1) == LookupType(w, file, node, steps, seen, fuel)
    decreases fuel, 1, node
  {
    if steps != [] {
      match node
      case Literal(members) =>
        if steps[0].Named? && FindProperty(members, steps[0].member).Some? {
          PropertyMoreFuel(w, file, FindProperty(members, steps[0].member).value, steps, seen, fuel);
        }
      case Paren(inner) => TypeMoreFuel(w, file, inner, steps, seen, fuel);
      case Operator(_, inner) => TypeMoreFuel(w, file, inner, steps, seen, fuel);
      case Intersection(parts) => AllMoreFuel(w, file, parts, steps, seen, fuel);
      case Union(first, rest) =>
        TypeMoreFuel(w, file, first, steps, seen, fuel);
        AllMoreFuel(w, file, rest, steps, LookupType(w, file, first, steps, seen, fuel).seen, fuel);
      case ArrayOf(element) =>
        if steps[0].Element? { TypeMoreFuel(w, file, element, steps[1..], seen, fuel); }
      case Indexed(container, key) =>
        if key.Some? { TypeMoreFuel(w, file, container, [PathStep.Named(key.value)] + steps, seen, fuel); }
      case Reference(head, qualified, args) =>
        if IsPassthrough(head) && args != [] {
          TypeMoreFuel(w, file, args[0], steps, seen, fuel);
        } else if IsArrayName(head) && args != [] {
          if steps[0].Element? { TypeMoreFuel(w, file, args[0], steps[1..], seen, fuel); }
        } else if !qualified && DeclForTypeName(w, file, head).Some? {
          DeclMoreFuel(w, DeclForTypeName(w, file, head).value, steps, seen, fuel);
        }
      case Parameter(name) =>
        if DeclForTypeName(w, file, name).Some? {
          DeclMoreFuel(w, DeclForTypeName(w, file, name).value, steps, seen, fuel);
        }
      case OtherType =>
    }
  }

  // A lookup that ends at all has one outcome, whatever the fuel.
  lemma {:induction false} FuelDoesNotMatter(w: World, site: Site, steps: seq<PathStep>, seen: set<Visit>, f: nat,
                                             g: nat)
    requires site in w.decls && f <= g && LookupDecl(w, site, steps, seen, f).Done?
    ensures LookupDecl(w, site, steps, seen, g) == LookupDecl(w, site, steps, seen, f)
    decreases g - f
  {
    if f < g {
      DeclMoreFuel(w, site, steps, seen, f);
      FuelDoesNotMatter(w, site, steps, seen, f + 1, g);
    }
  }

  // ---- Earlier visits only cloud an answer ----

  ghost predicate Apart(r: Outcome<Answer>, r': Outcome<Answer>) {
    IsFound(r) && IsMissing(r')
  }

  lemma {:induction false} DeclNotApart(w: World, site: Site, steps: seq<PathStep>, seen: set<Visit>, f: nat,
                                        seen': set<Visit>, f': nat)
    requires site in w.decls
    ensures !Apart(LookupDecl(w, site, steps, seen, f), LookupDecl(w, site, steps, seen', f'))
    decreases f, 0
  {
    if Apart(LookupDecl(w, site, steps, seen, f), LookupDecl(w, site, steps, seen', f')) {
      var more, more' := seen + {Visit(site, |steps|)}, seen' + {Visit(site, |steps|)};
      match w.decls[site]
      case Interface(members, bases) =>
        var direct := FindProperty(members, steps[0].member);
        if direct.Some? {
          PropertyNotApart(w, site.file, direct.value, steps, more, f - 1, more', f' - 1);
        } else {
          BasesNotApart(w, site.file, bases, steps, more, f - 1, more', f' - 1);
          CombinedNotApart(LookupBases(w, site.file, bases, steps, more, f - 1).value,
                           LookupBases(w, site.file, bases, steps, more', f' - 1).value);
        }
      case Alias(body) => TypeNotApart(w, site.file, body, steps, more, f - 1, more', f' - 1);
    }
  }

  ghost predicate NoneApart(a: seq<Answer>, b: seq<Answer>) {
    |a| == |b| && forall i :: 0 <= i < |a| && a[i] == Found ==> b[i] != Missing
  }

  lemma CombinedNotApart(a: seq<Answer>, b: seq<Answer>)
    requires NoneApart(a, b)
    ensures Combine(a) == Found ==> Combine(b) != Missing
  {
    if Combine(a) == Found {
      var i :| 0 <= i < |a| && a[i] == Found;
      assert b[i] in b;
    }
  }

  lemma ConsNotApart(x: Answer, a: seq<Answer>, y: Answer, b: seq<Answer>)
    requires NoneApart(a, b) && (x == Found ==> y != Missing)
    ensures NoneApart([x] + a, [y] + b)
  {
  }

  lemma {:induction false} PropertyNotApart(w: World, file: string, m: Member, steps: seq<PathStep>, seen: set<Visit>,
                                            f: nat, seen': set<Visit>, f': nat)
    requires m.Property? && steps != []
    ensures !Apart(LookupProperty(w, file, m, steps, seen, f), LookupProperty(w, file, m, steps, seen', f'))
    decreases f, 1, m
  {
    if |steps| > 1 && m.declared.Some? {
      TypeNotApart(w, file, m.declared.value, steps[1..], seen, f, seen', f');
    }
  }

  lemma {:induction false} BasesNotApart(w: World, file: string, bases: seq<Base>, steps: seq<PathStep>,
                                         seen: set<Visit>, f: nat, seen': set<Visit>, f': nat)
    ensures var r, r' := LookupBases(w, file, bases, steps, seen, f), LookupBases(w, file, bases, steps, seen', f');
      r.Done? && r'.Done? ==> NoneApart(r.value, r'.value)
    decreases f, 1, bases
  {
    if bases != [] {
      var head := LookupBase(w, file, bases[0], steps, seen, f);
      var head' := LookupBase(w, file, bases[0], steps, seen', f');
      if bases[0].Named? && DeclForTypeName(w, file, bases[0].name).Some? {
        DeclNotApart(w, DeclForTypeName(w, file, bases[0].name).value, steps, seen, f, seen', f');
      }
      if head.Done? && head'.Done? {
        BasesNotApart(w, file, bases[1..], steps, head.seen, f, head'.seen, f');
        var tail := LookupBases(w, file, bases[1..], steps, head.seen, f);
        var tail' := LookupBases(w, file, bases[1..], steps, head'.seen, f');
        if tail.Done? && tail'.Done? { ConsNotApart(head.value, tail.value, head'.value, tail'.value); }
      }
    }
  }

  lemma {:induction false} AllNotApart(w: World, file: string, types: seq<TypeNode>, steps: seq<PathStep>,
                                       seen: set<Visit>, f: nat, seen': set<Visit>, f': nat)
    ensures var r, r' := LookupAll(w, file, types, steps, seen, f), LookupAll(w, file, types, steps, seen', f');
      r.Done? && r'.Done? ==> NoneApart(r.value, r'.value)
    decreases f, 1, types
  {
    if types != [] {
      var head := LookupType(w, file, types[0], steps, seen, f);
      var head' := LookupType(w, file, types[0], steps, seen', f');
      TypeNotApart(w, file, types[0], steps, seen, f, seen', f');
      if head.Done? && head'.Done? {
        AllNotApart(w, file, types[1..], steps, head.seen, f, head'.seen, f');
        var tail := LookupAll(w, file, types[1..], steps, head.seen, f);
        var tail' := LookupAll(w, file, types[1..], steps, head'.seen, f');
        if tail.Done? && tail'.Done? { ConsNotApart(head.value, tail.value, head'.value, tail'.value); }
      }
    }
  }

  lemma {:induction false} TypeNotApart(w: World, file: string, node: TypeNode, steps: seq<PathStep>, seen: set<Visit>,
                                        f: nat, seen': set<Visit>, f': nat)
    ensures !Apart(LookupType(w, file, node, steps, seen, f), LookupType(w, file, node, steps, seen', f'))
    decreases f, 1, node
  {
    if steps != [] {
      match node
      case Literal(members) =>
        if steps[0].Named? && FindProperty(members, steps[0].member).Some? {
          PropertyNotApart(w, file, FindProperty(members, steps[0].member).value, steps, seen, f, seen', f');
        }
      case Paren(inner) => TypeNotApart(w, file, inner, steps, seen, f, seen', f');
      case Operator(_, inner) => TypeNotApart(w, file, inner, steps, seen, f, seen', f');
      case Intersection(parts) =>
        AllNotApart(w, file, parts, steps, seen, f, seen', f');
        var r, r' := LookupAll(w, file, parts, steps, seen, f), LookupAll(w, file, parts, steps, seen', f');
        if r.Done? && r'.Done? { CombinedNotApart(r.value, r'.value); }
      case Union(first, _) => UnionNotApart(w, file, node, steps, seen, f, seen', f');
      case ArrayOf(element) =>
        if steps[0].Element? { TypeNotApart(w, file, element, steps[1..], seen, f, seen', f'); }
      case Indexed(container, key) =>
        if key.Some? { TypeNotApart(w, file, container, [PathStep.Named(key.value)] + steps, seen, f, seen', f'); }
      case Reference(head, qualified, args) =>
        if IsPassthrough(head) && args != [] {
          TypeNotApart(w, file, args[0], steps, seen, f, seen', f');
        } else if IsArrayName(head) && args != [] {
          if steps[0].Element? { TypeNotApart(w, file, args[0], steps[1..], seen, f, seen', f'); }
        } else if !qualified && DeclForTypeName(w, file, head).Some? {
          DeclNotApart(w, DeclForTypeName(w, file, head).value, steps, seen, f, seen', f');
        }
      case Parameter(name) =>
        if DeclForTypeName(w, file, name).Some? {
          DeclNotApart(w, DeclForTypeName(w, file, name).value, steps, seen, f, seen', f');
        }
      case OtherType =>
    }
  }

  lemma {:induction false} UnionNotApart(w: World, file: string, node: TypeNode, steps: seq<PathStep>, seen: set<Visit>,
                                         f: nat, seen': set<Visit>, f': nat)
    requires node.Union? && steps != []
    ensures !Apart(LookupType(w, file, node, steps, seen, f), LookupType(w, file, node, steps, seen', f'))
    decreases f, 1, node, 0
  {
    var head := LookupType(w, file, node.first, steps, seen, f);
    var head' := LookupType(w, file, node.first, steps, seen', f');
    TypeNotApart(w, file, node.first, steps, seen, f, seen', f');
    if head.Done? && head'.Done? {
      var tail := LookupAll(w, file, node.rest, steps, head.seen, f);
      var tail' := LookupAll(w, file, node.rest, steps, head'.seen, f');
      FirstDecides(head, tail);
      FirstDecides(head', tail');
    }
  }

  // A definite answer for a union is that of its first branch.
  lemma FirstDecides(head: Outcome<Answer>, tail: Outcome<seq<Answer>>)
    ensures head.Done? && tail.Done? ==>
              var a := Agree([head.value] + tail.value); a == Unknown || a == head.value
  {
    if head.Done? && tail.Done? {
      var answers := [head.value] + tail.value;
      assert answers[0] in answers;
    }
  }

  // Two lookups of one path agree unless one of them answers unknown: the visits before a call
  // only cloud its answer.
  lemma SeenOnlyClouds(w: World, site: Site, steps: seq<PathStep>, seen: set<Visit>, f: nat, seen': set<Visit>, f': nat)
    requires site in w.decls
    requires LookupDecl(w, site, steps, seen, f).Done? && LookupDecl(w, site, steps, seen', f').Done?
    ensures var a, b := LookupDecl(w, site, steps, seen, f).value, LookupDecl(w, site, steps, seen', f').value;
      a == Unknown || b == Unknown || a == b
  {
    DeclNotApart(w, site, steps, seen, f, seen', f');
    DeclNotApart(w, site, steps, seen', f', seen, f);
  }
}
