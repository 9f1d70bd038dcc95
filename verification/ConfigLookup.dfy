// lookupPath: the three-valued walk of a schema key path over declared types, with its shared
// set of visited declarations.
module ConfigLookup {
  import opened ConfigTypes

  function LookupDecl(w: World, site: Site, steps: seq<PathStep>, seen: set<Visit>, fuel: nat): Outcome<Answer>
    requires site in w.decls
    decreases fuel, 0
  {
    var visit := Visit(site, |steps|);
    if steps == [] then Done(Found, seen)
    else match w.decls[site]
      case Interface(members, bases) =>
        if visit in seen then Done(Unknown, seen)
        else if fuel == 0 then OutOfFuel
        else if !steps[0].Named? then Done(Unknown, seen + {visit})
        else
          var direct := FindProperty(members, steps[0].member);
          if direct.Some? then
            LookupProperty(w, site.file, direct.value, steps, seen + {visit}, fuel - 1)
          else
            var r := LookupBases(w, site.file, bases, steps, seen + {visit}, fuel - 1);
            if r.OutOfFuel? then OutOfFuel else Done(Combine(r.value), r.seen)
      case Alias(body) =>
        if visit in seen then Done(Unknown, seen)
        else if fuel == 0 then OutOfFuel
        else LookupType(w, site.file, body, steps, seen + {visit}, fuel - 1)
      case Enum => Done(Unknown, seen)
  }

  function LookupProperty(w: World, file: string, property: Member, steps: seq<PathStep>, seen: set<Visit>, fuel: nat)
    : Outcome<Answer>
    requires property.Property? && steps != []
    decreases fuel, 1, property
  {
    if |steps| == 1 then Done(Found, seen)
    else match property.declared
      case Some(declared) => LookupType(w, file, declared, steps[1..], seen, fuel)
      case None => Done(Unknown, seen)
  }

  function LookupBases(w: World, file: string, bases: seq<Base>, steps: seq<PathStep>, seen: set<Visit>, fuel: nat)
    : (r: Outcome<seq<Answer>>)
    ensures r.Done? ==> |r.value| == |bases|
    decreases fuel, 1, bases
  {
    if bases == [] then Done([], seen)
    else
      var head := LookupBase(w, file, bases[0], steps, seen, fuel);
      if head.OutOfFuel? then OutOfFuel
      else
        var tail := LookupBases(w, file, bases[1..], steps, head.seen, fuel);
        if tail.OutOfFuel? then OutOfFuel else Done([head.value] + tail.value, tail.seen)
  }

  function LookupBase(w: World, file: string, base: Base, steps: seq<PathStep>, seen: set<Visit>, fuel: nat)
    : Outcome<Answer>
    decreases fuel, 1, base
  {
    match base
    case Computed => Done(Unknown, seen)
    case Named(name) =>
      match DeclForTypeName(w, file, name)
      case None => Done(Unknown, seen)
      case Some(site) => LookupDecl(w, site, steps, seen, fuel)
  }

  function LookupAll(w: World, file: string, types: seq<TypeNode>, steps: seq<PathStep>, seen: set<Visit>, fuel: nat)
    : (r: Outcome<seq<Answer>>)
    ensures r.Done? ==> |r.value| == |types|
    decreases fuel, 1, types
  {
    if types == [] then Done([], seen)
    else
      var head := LookupType(w, file, types[0], steps, seen, fuel);
      if head.OutOfFuel? then OutOfFuel
      else
        var tail := LookupAll(w, file, types[1..], steps, head.seen, fuel);
        if tail.OutOfFuel? then OutOfFuel else Done([head.value] + tail.value, tail.seen)
  }

  function LookupType(w: World, file: string, node: TypeNode, steps: seq<PathStep>, seen: set<Visit>, fuel: nat)
    : Outcome<Answer>
    decreases fuel, 1, node
  {
    if steps == [] then Done(Found, seen)
    else match node
      case Literal(members) =>
        if !steps[0].Named? then Done(Unknown, seen)
        else
          var direct := FindProperty(members, steps[0].member);
          if direct.Some? then LookupProperty(w, file, direct.value, steps, seen, fuel) else Done(Missing, seen)
      case Paren(inner) => LookupType(w, file, inner, steps, seen, fuel)
      case Operator(_, inner) => LookupType(w, file, inner, steps, seen, fuel)
      case Intersection(parts) =>
        var r := LookupAll(w, file, parts, steps, seen, fuel);
        if r.OutOfFuel? then OutOfFuel else Done(Combine(r.value), r.seen)
      case Union(first, rest) =>
        var head := LookupType(w, file, first, steps, seen, fuel);
        if head.OutOfFuel? then OutOfFuel
        else
          var tail := LookupAll(w, file, rest, steps, head.seen, fuel);
          if tail.OutOfFuel? then OutOfFuel else Done(Agree([head.value] + tail.value), tail.seen)
      case ArrayOf(element) =>
        if steps[0].Element? then LookupType(w, file, element, steps[1..], seen, fuel) else Done(Unknown, seen)
      case Indexed(container, key) =>
        (match key
         case Some(name) => LookupType(w, file, container, [PathStep.Named(name)] + steps, seen, fuel)
         case None => Done(Unknown, seen))
      case Reference(head, qualified, args) =>
        if IsPassthrough(head) && args != [] then LookupType(w, file, args[0], steps, seen, fuel)
        else if IsArrayName(head) && args != [] then
          if steps[0].Element? then LookupType(w, file, args[0], steps[1..], seen, fuel) else Done(Unknown, seen)
        else if qualified then Done(Unknown, seen)
        else
          (match DeclForTypeName(w, file, head)
           case None => Done(Unknown, seen)
           case Some(site) => LookupDecl(w, site, steps, seen, fuel))
      case Parameter(name) =>
        (match DeclForTypeName(w, file, name)
         case None => Done(Unknown, seen)
         case Some(site) => LookupDecl(w, site, steps, seen, fuel))
      case OtherType => Done(Unknown, seen)
  }
}
