// The schema keys of a plugin whose schema intersects those of other packages, and their check
// against the plugin's config type.
module SchemaComposition {
  import opened Digraphs
  import opened Splitting
  import opened ConfigTypes
  import opened ConfigLookup
  import opened ConfigPresence
  import opened ConfigLookupProofs
  import opened ConfigMisreadings
  import opened ConfigFuel
  import opened ConfigTermination
  import opened KeyPaths

  // The keys a schema validates itself and the packages whose schemas it intersects.
  datatype Entry = Entry(keys: seq<string>, composes: seq<string>)

  type Catalog = map<string, Entry>

  ghost function ComposeGraph(entries: Catalog): Graph<string> {
    map pkg | pkg in entries :: entries[pkg].composes
  }

  // The packages a schema is composed of, itself included.
  ghost predicate ComposedOf(entries: Catalog, pkg: string, p: string) {
    p in entries && Reaches(ComposeGraph(entries), pkg, p)
  }

  // ---- The order of the fold ----

  // What the fold comes upon: a package it enters, or a listing that names no collected package.
  datatype Stop = Package(name: string) | Gap(owner: string, at: int, missing: string)

  ghost function StopAt(entries: Catalog, p: string, i: int): Stop
    requires p in entries && 0 <= i < |entries[p].composes|
  {
    var composed := entries[p].composes[i];
    if composed in entries then Package(composed) else Gap(p, i, composed)
  }

  ghost predicate IsPast(entries: Catalog, stops: seq<Stop>, p: string, i: int) {
    p in entries && 0 <= i < |entries[p].composes| && StopAt(entries, p, i) in stops
  }

  ghost predicate IsDone(entries: Catalog, stops: seq<Stop>, stop: Stop) {
    stop.Package? ==>
      && stop.name in entries
      && forall i :: 0 <= i < |entries[stop.name].composes| ==> IsPast(entries, stops, stop.name, i)
  }

  ghost predicate AllDone(entries: Catalog, stops: seq<Stop>, some: seq<Stop>) {
    forall stop {:trigger IsDone(entries, stops, stop)} :: stop in some ==> IsDone(entries, stops, stop)
  }

  // The next stop is the first one left among the listings of the last package that has any left.
  ghost predicate ComesNext(entries: Catalog, stops: seq<Stop>, next: Stop) {
    exists j, i :: ComesNextAt(entries, stops, next, j, i)
  }

  ghost predicate ComesNextAt(entries: Catalog, stops: seq<Stop>, next: Stop, j: int, i: int) {
    && next !in stops && 0 <= j < |stops| && stops[j].Package? && stops[j].name in entries
    && 0 <= i < |entries[stops[j].name].composes| && StopAt(entries, stops[j].name, i) == next
    && (forall h :: 0 <= h < i ==> IsPast(entries, stops, stops[j].name, h))
    && (forall h :: j < h < |stops| ==> IsDone(entries, stops, stops[h]))
  }

  ghost predicate DepthFirst(entries: Catalog, stops: seq<Stop>) {
    forall k {:trigger ComesNext(entries, stops[..k], stops[k])} ::
      0 < k < |stops| ==> ComesNext(entries, stops[..k], stops[k])
  }

  // The package itself first, then depth first in the order of the listings until nothing is left.
  ghost predicate FoldOrder(entries: Catalog, pkg: string, order: seq<Stop>) {
    order != [] && order[0] == Package(pkg) && DepthFirst(entries, order) && AllDone(entries, order, order)
  }

  // ---- There is one such order ----

  lemma NotPast(entries: Catalog, stops: seq<Stop>, next: Stop, j: int, i: int)
    requires ComesNextAt(entries, stops, next, j, i)
    ensures !IsPast(entries, stops, stops[j].name, i) && !IsDone(entries, stops, stops[j])
  {
    assert !IsPast(entries, stops, stops[j].name, i);
  }

  lemma NotLater(entries: Catalog, stops: seq<Stop>, a: Stop, b: Stop, j: int, i: int, l: int, h: int)
    requires ComesNextAt(entries, stops, a, j, i) && ComesNextAt(entries, stops, b, l, h)
    ensures l <= j
  {
    NotPast(entries, stops, b, l, h);
  }

  lemma NotFurther(entries: Catalog, stops: seq<Stop>, a: Stop, b: Stop, j: int, i: int, h: int)
    requires ComesNextAt(entries, stops, a, j, i) && ComesNextAt(entries, stops, b, j, h)
    ensures h <= i
  {
    NotPast(entries, stops, a, j, i);
  }

  lemma NextIsOne(entries: Catalog, stops: seq<Stop>, a: Stop, b: Stop)
    requires ComesNext(entries, stops, a) && ComesNext(entries, stops, b)
    ensures a == b
  {
    var j, i :| ComesNextAt(entries, stops, a, j, i);
    var l, h :| ComesNextAt(entries, stops, b, l, h);
    NotLater(entries, stops, a, b, j, i, l, h);
    NotLater(entries, stops, b, a, l, h, j, i);
    NotFurther(entries, stops, a, b, j, i, h);
    NotFurther(entries, stops, b, a, j, h, i);
  }

  lemma SameNext(entries: Catalog, a: seq<Stop>, b: seq<Stop>, k: nat)
    requires DepthFirst(entries, a) && DepthFirst(entries, b) && 0 < k < |a| && k < |b| && a[..k] == b[..k]
    ensures a[k] == b[k]
  {
    assert ComesNext(entries, a[..k], a[k]) && ComesNext(entries, b[..k], b[k]);
    NextIsOne(entries, a[..k], a[k], b[k]);
  }

  // Two depth-first lists with one start agree as far as they go.
  lemma {:induction false} DepthFirstIsFixed(entries: Catalog, a: seq<Stop>, b: seq<Stop>, k: nat)
    requires DepthFirst(entries, a) && DepthFirst(entries, b) && 0 < k && k <= |a| && k <= |b| && a[0] == b[0]
    ensures a[..k] == b[..k]
  {
    if k == 1 {
      assert a[..1] == [a[0]] && b[..1] == [b[0]];
    } else {
      DepthFirstIsFixed(entries, a, b, k - 1);
      SameNext(entries, a, b, k - 1);
      assert a[..k] == a[..k - 1] + [a[k - 1]] && b[..k] == b[..k - 1] + [b[k - 1]];
    }
  }

  lemma NothingLeft(entries: Catalog, a: seq<Stop>, b: seq<Stop>)
    requires AllDone(entries, a, a) && DepthFirst(entries, b) && 0 < |a| <= |b| && a == b[..|a|]
    ensures a == b
  {
    if |a| < |b| {
      assert ComesNext(entries, b[..|a|], b[|a|]);
      var j, i :| ComesNextAt(entries, a, b[|a|], j, i);
      NotPast(entries, a, b[|a|], j, i);
    }
  }

  lemma FoldOrderIsFixed(entries: Catalog, pkg: string, a: seq<Stop>, b: seq<Stop>)
    requires FoldOrder(entries, pkg, a) && FoldOrder(entries, pkg, b)
    ensures a == b
  {
    var k := if |a| <= |b| then |a| else |b|;
    DepthFirstIsFixed(entries, a, b, k);
    if |a| <= |b| {
      assert a[..k] == a;
      NothingLeft(entries, a, b);
    } else {
      assert b[..k] == b;
      NothingLeft(entries, b, a);
    }
  }

  // ---- What it comes upon ----

  // A package composed into pkg, or a listing of one that names no collected package.
  ghost predicate IsListed(entries: Catalog, pkg: string, stop: Stop) {
    match stop
    case Package(p) => ComposedOf(entries, pkg, p)
    case Gap(p, at, missing) =>
      && ComposedOf(entries, pkg, p) && 0 <= at < |entries[p].composes|
      && entries[p].composes[at] == missing && missing !in entries
  }

  // Each package composed into pkg and each uncollected listing in them, once.
  lemma FoldOrderCovers(entries: Catalog, pkg: string, order: seq<Stop>)
    requires FoldOrder(entries, pkg, order)
    ensures Distinct(order) && forall stop :: stop in order <==> IsListed(entries, pkg, stop)
  {
    assert IsDone(entries, order, order[0]);
    forall i, j | 0 <= i < j < |order| ensures order[i] != order[j] {
      assert ComesNext(entries, order[..j], order[j]) && order[..j][i] == order[i];
    }
    forall stop ensures stop in order <==> IsListed(entries, pkg, stop) {
      if k :| 0 <= k < |order| && order[k] == stop { StopIsListed(entries, pkg, order, k); }
      if IsListed(entries, pkg, stop) { ListedIsMet(entries, pkg, order, stop); }
    }
  }

  lemma {:induction false} StopIsListed(entries: Catalog, pkg: string, order: seq<Stop>, k: nat)
    requires DepthFirst(entries, order) && k < |order| && order[0] == Package(pkg) && pkg in entries
    ensures IsListed(entries, pkg, order[k])
  {
    var g := ComposeGraph(entries);
    if k == 0 {
      ReachesSelf(g, pkg);
    } else {
      assert ComesNext(entries, order[..k], order[k]);
      var j, i :| ComesNextAt(entries, order[..k], order[k], j, i);
      StopIsListed(entries, pkg, order, j);
      if order[k].Package? { ReachesStep(g, pkg, order[j].name, order[k].name); }
    }
  }

  lemma ListedIsMet(entries: Catalog, pkg: string, order: seq<Stop>, stop: Stop)
    requires FoldOrder(entries, pkg, order) && IsListed(entries, pkg, stop)
    ensures stop in order
  {
    var p := if stop.Package? then stop.name else stop.owner;
    var walk :| IsWalk(ComposeGraph(entries), walk) && walk[0] == pkg && walk[|walk| - 1] == p;
    MetAlong(entries, order, walk, |walk| - 1);
    assert IsDone(entries, order, Package(p));
    if stop.Gap? { assert IsPast(entries, order, p, stop.at); }
  }

  lemma {:induction false} MetAlong(entries: Catalog, order: seq<Stop>, walk: seq<string>, k: nat)
    requires IsWalk(ComposeGraph(entries), walk) && Package(walk[0]) in order && k < |walk|
    requires AllDone(entries, order, order)
    ensures walk[k] in entries ==> Package(walk[k]) in order
  {
    if k > 0 {
      MetAlong(entries, order, walk, k - 1);
      assert EdgeAt(ComposeGraph(entries), walk, k - 1);
      var p := walk[k - 1];
      assert IsDone(entries, order, Package(p));
      var i :| 0 <= i < |entries[p].composes| && entries[p].composes[i] == walk[k];
      assert IsPast(entries, order, p, i);
    }
  }

  // ---- The fold ----

  ghost function KeysAt(entries: Catalog, stop: Stop): seq<string> {
    if stop.Package? && stop.name in entries then entries[stop.name].keys else []
  }

  ghost function KeysOf(entries: Catalog, order: seq<Stop>): seq<string> {
    if order == [] then [] else KeysAt(entries, order[0]) + KeysOf(entries, order[1..])
  }

  ghost function ComplaintsAt(stop: Stop): seq<string> {
    if stop.Gap? then [stop.missing] else []
  }

  ghost function ComplaintsOf(order: seq<Stop>): seq<string> {
    if order == [] then [] else ComplaintsAt(order[0]) + ComplaintsOf(order[1..])
  }

  lemma {:induction false} KeysConcat(entries: Catalog, a: seq<Stop>, b: seq<Stop>)
    ensures KeysOf(entries, a + b) == KeysOf(entries, a) + KeysOf(entries, b)
  {
    if a == [] {
      assert a + b == b;
    } else {
      KeysConcat(entries, a[1..], b);
      assert (a + b)[1..] == a[1..] + b;
      Assoc(KeysAt(entries, a[0]), KeysOf(entries, a[1..]), KeysOf(entries, b));
    }
  }

  lemma {:induction false} ComplaintsConcat(a: seq<Stop>, b: seq<Stop>)
    ensures ComplaintsOf(a + b) == ComplaintsOf(a) + ComplaintsOf(b)
  {
    if a == [] {
      assert a + b == b;
    } else {
      ComplaintsConcat(a[1..], b);
      assert (a + b)[1..] == a[1..] + b;
      Assoc(ComplaintsAt(a[0]), ComplaintsOf(a[1..]), ComplaintsOf(b));
    }
  }

  ghost function PackagesIn(stops: seq<Stop>): set<string> {
    set stop | stop in stops && stop.Package? :: stop.name
  }

  ghost predicate Kept(entries: Catalog, stops: seq<Stop>, seen: set<string>) {
    && DepthFirst(entries, stops) && seen == PackagesIn(stops)
    && forall stop :: stop in stops && stop.Gap? ==> Package(stop.owner) in stops
  }

  // No gap is one of a package come upon before.
  ghost predicate AllNew(before: seq<Stop>, found: seq<Stop>) {
    forall stop :: stop in found && stop.Gap? ==> Package(stop.owner) !in before
  }

  // The fold of pkg has come upon `rest` when its first i listings have been dealt with.
  ghost predicate Folding(entries: Catalog, pkg: string, i: nat, before: seq<Stop>, rest: seq<Stop>,
                          stops: seq<Stop>, seen: set<string>)
  {
    && pkg in entries && i <= |entries[pkg].composes| && stops == before + [Package(pkg)] + rest
    && Kept(entries, stops, seen) && AllDone(entries, stops, rest) && AllNew(before, rest)
    && Package(pkg) !in before && (forall h :: 0 <= h < i ==> IsPast(entries, stops, pkg, h))
    && forall stop :: stop in stops && stop.Gap? && stop.owner == pkg ==> stop.at < i
  }

  // A call has come upon `found`.
  ghost predicate Returned(entries: Catalog, stops: seq<Stop>, found: seq<Stop>, more: seq<Stop>, seen: set<string>) {
    && more == stops + found && Kept(entries, more, seen)
    && AllDone(entries, more, found) && AllNew(stops, found)
  }

  lemma DepthFirstGrows(entries: Catalog, stops: seq<Stop>, next: Stop)
    requires DepthFirst(entries, stops) && (stops == [] || ComesNext(entries, stops, next))
    ensures DepthFirst(entries, stops + [next])
  {
    var more := stops + [next];
    forall k | 0 < k < |more| ensures ComesNext(entries, more[..k], more[k]) {
      assert more[..k] == stops[..k];
      assert k == |stops| ==> stops[..k] == stops;
    }
  }

  lemma StillDone(entries: Catalog, stops: seq<Stop>, more: seq<Stop>, some: seq<Stop>)
    requires AllDone(entries, stops, some)
    ensures AllDone(entries, stops + more, some)
  {
    forall stop | stop in some ensures IsDone(entries, stops + more, stop) {
      assert IsDone(entries, stops, stop);
      if stop.Package? {
        forall i | 0 <= i < |entries[stop.name].composes| ensures IsPast(entries, stops + more, stop.name, i) {
          assert IsPast(entries, stops, stop.name, i);
        }
      }
    }
  }

  lemma FoldingStarts(entries: Catalog, pkg: string, stops: seq<Stop>, seen: set<string>)
    requires pkg in entries && pkg !in seen && Kept(entries, stops, seen)
    requires stops == [] || ComesNext(entries, stops, Package(pkg))
    ensures Folding(entries, pkg, 0, stops, [], stops + [Package(pkg)], seen + {pkg})
  {
    var more := stops + [Package(pkg)];
    DepthFirstGrows(entries, stops, Package(pkg));
    assert more == stops + [Package(pkg)] + [] && Package(pkg) in more;
    forall stop | stop in more && stop.Gap? ensures Package(stop.owner) in more { assert stop in stops; }
    assert PackagesIn(more) == seen + {pkg};
  }

  // A listing that has not been met comes next.
  lemma NextBelow(entries: Catalog, pkg: string, i: nat, before: seq<Stop>, rest: seq<Stop>, stops: seq<Stop>,
                  seen: set<string>)
    requires Folding(entries, pkg, i, before, rest, stops, seen) && i < |entries[pkg].composes|
    requires StopAt(entries, pkg, i) !in stops
    ensures ComesNext(entries, stops, StopAt(entries, pkg, i))
  {
    forall h | |before| < h < |stops| ensures IsDone(entries, stops, stops[h]) {
      assert stops[h] == rest[h - |before| - 1];
    }
    assert stops[|before|] == Package(pkg);
    assert ComesNextAt(entries, stops, StopAt(entries, pkg, i), |before|, i);
  }

  lemma PastStays(entries: Catalog, pkg: string, i: nat, stops: seq<Stop>, found: seq<Stop>)
    requires pkg in entries && i < |entries[pkg].composes| && StopAt(entries, pkg, i) in stops + found
    requires forall h :: 0 <= h < i ==> IsPast(entries, stops, pkg, h)
    ensures forall h :: 0 <= h < i + 1 ==> IsPast(entries, stops + found, pkg, h)
  {
    forall h | 0 <= h < i + 1 ensures IsPast(entries, stops + found, pkg, h) {
      assert h < i ==> IsPast(entries, stops, pkg, h);
    }
  }

  lemma FoldingComplains(entries: Catalog, pkg: string, i: nat, before: seq<Stop>, rest: seq<Stop>, stops: seq<Stop>,
                         seen: set<string>)
    requires Folding(entries, pkg, i, before, rest, stops, seen) && i < |entries[pkg].composes|
    requires StopAt(entries, pkg, i).Gap?
    ensures var gap := [StopAt(entries, pkg, i)];
      Folding(entries, pkg, i + 1, before, rest + gap, stops + gap, seen)
  {
    var gap := StopAt(entries, pkg, i);
    NextBelow(entries, pkg, i, before, rest, stops, seen);
    DepthFirstGrows(entries, stops, gap);
    StillDone(entries, stops, [gap], rest);
    Assoc(before + [Package(pkg)], rest, [gap]);
    PastStays(entries, pkg, i, stops, [gap]);
    assert PackagesIn(stops + [gap]) == PackagesIn(stops);
  }

  lemma FoldingReturns(entries: Catalog, pkg: string, i: nat, before: seq<Stop>, rest: seq<Stop>, stops: seq<Stop>,
                       middle: set<string>, found: seq<Stop>, more: seq<Stop>, seen: set<string>)
    requires Folding(entries, pkg, i, before, rest, stops, middle) && i < |entries[pkg].composes|
    requires Returned(entries, stops, found, more, seen) && StopAt(entries, pkg, i) in more
    ensures middle <= seen && Folding(entries, pkg, i + 1, before, rest + found, more, seen)
  {
    assert Package(pkg) in stops;
    StillDone(entries, stops, found, rest);
    Assoc(before + [Package(pkg)], rest, found);
    PastStays(entries, pkg, i, stops, found);
  }

  lemma FoldingEnds(entries: Catalog, pkg: string, before: seq<Stop>, rest: seq<Stop>, stops: seq<Stop>,
                    seen: set<string>)
    requires pkg in entries && Folding(entries, pkg, |entries[pkg].composes|, before, rest, stops, seen)
    ensures Returned(entries, before, [Package(pkg)] + rest, stops, seen)
  {
    Assoc(before, [Package(pkg)], rest);
  }

  // Keys and complaints so far: those of pkg itself and of `rest`.
  ghost predicate Accounted(entries: Catalog, pkg: string, rest: seq<Stop>, keys: seq<string>,
                            complaints: seq<string>, before: seq<string>)
  {
    pkg in entries && keys == entries[pkg].keys + KeysOf(entries, rest) && complaints == before + ComplaintsOf(rest)
  }

  lemma AccountedGoesOn(entries: Catalog, pkg: string, rest: seq<Stop>, keys: seq<string>, complaints: seq<string>,
                        before: seq<string>, found: seq<Stop>)
    requires Accounted(entries, pkg, rest, keys, complaints, before)
    ensures Accounted(entries, pkg, rest + found, keys + KeysOf(entries, found), complaints + ComplaintsOf(found),
                      before)
  {
    KeysConcat(entries, rest, found);
    ComplaintsConcat(rest, found);
    Assoc(entries[pkg].keys, KeysOf(entries, rest), KeysOf(entries, found));
    Assoc(before, ComplaintsOf(rest), ComplaintsOf(found));
  }

  lemma GapAccounted(entries: Catalog, pkg: string, rest: seq<Stop>, keys: seq<string>, complaints: seq<string>,
                     before: seq<string>, gap: Stop)
    requires Accounted(entries, pkg, rest, keys, complaints, before) && gap.Gap?
    ensures Accounted(entries, pkg, rest + [gap], keys, complaints + [gap.missing], before)
  {
    assert KeysOf(entries, [gap]) == KeysAt(entries, gap) + [];
    assert ComplaintsOf([gap]) == ComplaintsAt(gap) + [];
    AccountedGoesOn(entries, pkg, rest, keys, complaints, before, [gap]);
    assert keys + [] == keys;
  }

  lemma AccountedEnds(entries: Catalog, pkg: string, rest: seq<Stop>, keys: seq<string>, complaints: seq<string>,
                      before: seq<string>)
    requires Accounted(entries, pkg, rest, keys, complaints, before)
    ensures keys == KeysOf(entries, [Package(pkg)] + rest)
    ensures complaints == before + ComplaintsOf([Package(pkg)] + rest)
  {
    assert ([Package(pkg)] + rest)[1..] == rest;
  }

  class ComposedFold {
    const entries: Catalog
    var seen: set<string>
    var complaints: seq<string>
    ghost var stops: seq<Stop>

    constructor (entries: Catalog)
      ensures this.entries == entries && seen == {} && complaints == [] && stops == []
    {
      this.entries, seen, complaints, stops := entries, {}, [], [];
    }

    method Fold(pkg: string) returns (keys: seq<string>, ghost found: seq<Stop>)
      requires pkg in entries && Kept(entries, stops, seen)
      requires pkg !in seen && stops != [] ==> ComesNext(entries, stops, Package(pkg))
      modifies this
      ensures Returned(entries, old(stops), found, stops, seen)
      ensures if pkg in old(seen) then found == [] else found != [] && found[0] == Package(pkg)
      ensures keys == KeysOf(entries, found) && complaints == old(complaints) + ComplaintsOf(found)
      decreases entries.Keys - seen
    {
      if pkg in seen { return [], []; }
      FoldingStarts(entries, pkg, stops, seen);
      ghost var before, rest: seq<Stop> := stops, [];
      seen, stops := seen + {pkg}, stops + [Package(pkg)];
      keys := entries[pkg].keys;
      var composes := entries[pkg].composes;
      for i := 0 to |composes|
        invariant old(seen) + {pkg} <= seen && Folding(entries, pkg, i, before, rest, stops, seen)
        invariant Accounted(entries, pkg, rest, keys, complaints, old(complaints))
      {
        var composed := composes[i];
        ghost var middle, entered, earlier := seen, stops, complaints;
        if composed !in entries {
          ghost var gap := Gap(pkg, i, composed);
          FoldingComplains(entries, pkg, i, before, rest, stops, seen);
          GapAccounted(entries, pkg, rest, keys, complaints, old(complaints), gap);
          complaints := complaints + [composed];
          rest, stops := rest + [gap], stops + [gap];
        } else {
          if composed !in seen { NextBelow(entries, pkg, i, before, rest, stops, seen); }
          var more, found := Fold(composed);
          FoldingReturns(entries, pkg, i, before, rest, entered, middle, found, stops, seen);
          AccountedGoesOn(entries, pkg, rest, keys, earlier, old(complaints), found);
          keys, rest := keys + more, rest + found;
        }
      }
      FoldingEnds(entries, pkg, before, rest, stops, seen);
      AccountedEnds(entries, pkg, rest, keys, complaints, old(complaints));
      found := [Package(pkg)] + rest;
    }
  }

  // foldComposed: although schemas may compose each other in a circle, keys and complaints are those
  // of every composed package in turn, each package once.
  method FoldComposed(entries: Catalog, pkg: string)
    returns (keys: seq<string>, complaints: seq<string>)
    requires pkg in entries
    ensures exists order ::
              FoldOrder(entries, pkg, order) && keys == KeysOf(entries, order) && complaints == ComplaintsOf(order)
  {
    var fold := new ComposedFold(entries);
    ghost var order;
    keys, order := fold.Fold(pkg);
    complaints := fold.complaints;
    assert fold.stops == order && FoldOrder(entries, pkg, order);
  }

  // ---- The check ----

  ghost predicate ValidatedKey(entries: Catalog, pkg: string, key: string) {
    exists p :: ComposedOf(entries, pkg, p) && key in entries[p].keys
  }

  lemma {:induction false} KeysOfMembers(entries: Catalog, order: seq<Stop>, key: string)
    ensures key in KeysOf(entries, order) <==> exists stop :: stop in order && key in KeysAt(entries, stop)
  {
    if order != [] {
      assert order == [order[0]] + order[1..];
      KeysOfMembers(entries, order[1..], key);
    }
  }

  // The lookup of a key says missing, in however many calls.
  ghost predicate AnswersMissing(w: World, main: Site, key: string)
    requires main in w.decls
  {
    exists fuel: nat :: IsMissing(LookupDecl(w, main, Steps(key), {}, fuel))
  }

  lemma AnswerStands(w: World, main: Site, key: string, fuel: nat)
    requires main in w.decls && LookupDecl(w, main, Steps(key), {}, fuel).Done?
    ensures AnswersMissing(w, main, key) <==> IsMissing(LookupDecl(w, main, Steps(key), {}, fuel))
  {
    if f: nat :| IsMissing(LookupDecl(w, main, Steps(key), {}, f)) {
      FuelDoesNotMatter(w, main, Steps(key), {}, if f <= fuel then f else fuel, if f <= fuel then fuel else f);
    }
  }

  // The keys among these whose lookup says missing, as often and in the order as they are listed.
  ghost function MissingAmong(w: World, main: Site, keys: seq<string>): seq<string>
    requires main in w.decls
  {
    if keys == [] then []
    else
      var before, last := MissingAmong(w, main, keys[..|keys| - 1]), keys[|keys| - 1];
      if AnswersMissing(w, main, last) then before + [last] else before
  }

  lemma MissingGrows(w: World, main: Site, keys: seq<string>, i: nat)
    requires main in w.decls && i < |keys|
    ensures keys[i] in keys && keys[..i + 1] == keys[..i] + [keys[i]]
    ensures MissingAmong(w, main, keys[..i + 1])
         == MissingAmong(w, main, keys[..i]) + if AnswersMissing(w, main, keys[i]) then [keys[i]] else []
  {
    assert keys[..i + 1][..i] == keys[..i];
  }

  lemma {:induction false} MissingMembers(w: World, main: Site, keys: seq<string>, key: string)
    requires main in w.decls
    ensures key in MissingAmong(w, main, keys) <==> key in keys && AnswersMissing(w, main, key)
  {
    if keys != [] {
      MissingMembers(w, main, keys[..|keys| - 1], key);
      assert keys == keys[..|keys| - 1] + [keys[|keys| - 1]];
    }
  }

  // A lookup whose calls nest deeper than the stack allows throws.
  datatype SchemaCheck = Reported(keys: seq<string>, complaints: seq<string>) | StackOverflow

  ghost predicate Overflows(w: World, main: Site, entries: Catalog, pkg: string, depth: nat)
    requires main in w.decls
  {
    exists key :: ValidatedKey(entries, pkg, key) && LookupDecl(w, main, Steps(key), {}, depth).OutOfFuel?
  }

  // One complaint for each listing of an uncollected name, and one report for each listing of a
  // missing key, in the order of the fold.
  ghost predicate IsReport(w: World, main: Site, entries: Catalog, pkg: string, order: seq<Stop>,
                           keys: seq<string>, complaints: seq<string>)
    requires main in w.decls
  {
    && FoldOrder(entries, pkg, order)
    && keys == MissingAmong(w, main, KeysOf(entries, order))
    && complaints == ComplaintsOf(order)
  }

  // Reports the keys whose lookup says missing, or overflows the stack exactly if some lookup is
  // too deep for it.
  method CheckSchemaKeys(w: World, main: Site, entries: Catalog, pkg: string, depth: nat) returns (r: SchemaCheck)
    requires pkg in entries && main in w.decls
    ensures r.StackOverflow? <==> Overflows(w, main, entries, pkg, depth)
    ensures r.Reported? ==> exists order :: IsReport(w, main, entries, pkg, order, r.keys, r.complaints)
  {
    var reported := [];
    var keys, complaints := FoldComposed(entries, pkg);
    ghost var order :| FoldOrder(entries, pkg, order)
      && keys == KeysOf(entries, order) && complaints == ComplaintsOf(order);
    KeysAreValidated(entries, pkg, order);
    for i := 0 to |keys|
      invariant reported == MissingAmong(w, main, keys[..i])
      invariant forall key :: key in keys[..i] ==> LookupDecl(w, main, Steps(key), {}, depth).Done?
    {
      var steps := ParsePath(keys[i]);
      MissingGrows(w, main, keys, i);
      match LookupDecl(w, main, steps, {}, depth) {
        case Done(answer, _) =>
          AnswerStands(w, main, keys[i], depth);
          if answer == Missing { reported := reported + [keys[i]]; }
        case OutOfFuel =>
          return StackOverflow;
      }
    }
    assert keys[..|keys|] == keys;
    assert IsReport(w, main, entries, pkg, order, reported, complaints);
    r := Reported(reported, complaints);
  }

  lemma KeysAreValidated(entries: Catalog, pkg: string, order: seq<Stop>)
    requires FoldOrder(entries, pkg, order)
    ensures forall key :: key in KeysOf(entries, order) <==> ValidatedKey(entries, pkg, key)
  {
    FoldOrderCovers(entries, pkg, order);
    forall key ensures key in KeysOf(entries, order) <==> ValidatedKey(entries, pkg, key) {
      KeysOfMembers(entries, order, key);
      if p :| ComposedOf(entries, pkg, p) && key in entries[p].keys {
        assert IsListed(entries, pkg, Package(p)) && key in KeysAt(entries, Package(p));
      }
    }
  }

  // A key is reported exactly if some composed schema validates it and its lookup says missing.
  // That is right exactly if the lookup overlooks nothing, as on plain declarations.
  lemma ReportedIsMissing(w: World, main: Site, entries: Catalog, pkg: string, order: seq<Stop>, keys: seq<string>,
                          complaints: seq<string>, key: string)
    requires main in w.decls && IsReport(w, main, entries, pkg, order, keys, complaints)
    ensures key in keys <==> ValidatedKey(entries, pkg, key) && AnswersMissing(w, main, key)
    ensures key in keys ==> (LacksDecl(w, main, Steps(key)) <==> !OverlooksDecl(w, main, Steps(key)))
    ensures key in keys && PlainWorld(w) ==> LacksDecl(w, main, Steps(key)) && !HasDecl(w, main, Steps(key))
  {
    MissingMembers(w, main, KeysOf(entries, order), key);
    KeysAreValidated(entries, pkg, order);
    if fuel: nat :| IsMissing(LookupDecl(w, main, Steps(key), {}, fuel)) {
      LookupIsRight(w, main, Steps(key), {}, fuel);
    }
  }

  lemma {:induction false} LongestKey(entries: Catalog, pkgs: set<string>) returns (n: nat)
    requires pkgs <= entries.Keys
    ensures forall p, key :: p in pkgs && key in entries[p].keys ==> |Steps(key)| <= n
    decreases pkgs
  {
    n := 0;
    if pkgs != {} {
      var p :| p in pkgs;
      var a := LongestKey(entries, pkgs - {p});
      var b := LongestOf(entries[p].keys);
      n := a + b;
    }
  }

  lemma {:induction false} LongestOf(keys: seq<string>) returns (n: nat)
    ensures forall key :: key in keys ==> |Steps(key)| <= n
  {
    n := 0;
    if keys != [] {
      var a := LongestOf(keys[1..]);
      n := |Steps(keys[0])| + a;
    }
  }

  // Without a growing cycle of references some stack is deep enough for every check.
  lemma CheckCompletes(w: World, entries: Catalog) returns (enough: nat)
    requires NoGrowingCycle(w)
    ensures forall main, pkg, depth: nat :: main in w.decls && enough <= depth ==>
              !Overflows(w, main, entries, pkg, depth)
  {
    var n := LongestKey(entries, entries.Keys);
    enough := LookupEnds(w, n);
  }
}
