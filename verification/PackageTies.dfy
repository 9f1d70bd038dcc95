// When the order of packages depends on the order in which they are given.
module PackageTies {
  import opened Digraphs
  import opened Sorting
  import opened PackageGraph
  import opened PackageSort

  // ---- Layers in terms of the dependencies ----

  ghost predicate IsPathFrom(entries: seq<Package>, n: string, path: seq<string>)
    requires OneEach(entries)
  {
    IsWalk(DependencyGraph(entries), path) && path[0] == n
  }

  ghost predicate LongestPath(entries: seq<Package>, n: string, k: nat)
    requires OneEach(entries)
  {
    && (exists path :: IsPathFrom(entries, n, path) && |path| - 1 == k)
    && forall path :: IsPathFrom(entries, n, path) ==> |path| - 1 <= k
  }

  lemma LayerIsLongestPath(entries: seq<Package>, layer: Layering, n: string, k: nat)
    requires OneEach(entries) && IsLayering(entries, layer) && n in layer
    ensures LongestPath(entries, n, k) <==> layer[n] == k
  {
    var path := SomePathFillsLayer(entries, layer, n);
    assert IsPathFrom(entries, n, path);
    forall p | IsPathFrom(entries, n, p) ensures |p| - 1 <= layer[n] {
      PathsFitLayer(entries, layer, p);
    }
  }

  // ---- Ties ----

  // comparePackages ranks two different packages equal that have equally long dependency paths.
  ghost predicate Tied(entries: seq<Package>, groupOrder: seq<string>, collate: Collation, p: Package, q: Package)
    requires OneEach(entries)
  {
    && p != q && ComparePackages(p, q, groupOrder, collate) == 0
    && exists k :: LongestPath(entries, p.short, k) && LongestPath(entries, q.short, k)
  }

  ghost predicate NoTies(entries: seq<Package>, groupOrder: seq<string>, collate: Collation)
    requires OneEach(entries)
  {
    forall p, q :: p in entries && q in entries ==> !Tied(entries, groupOrder, collate, p, q)
  }

  ghost predicate TiedIn(layer: Layering, groupOrder: seq<string>, collate: Collation, p: Package, q: Package) {
    && p != q && p.short in layer && q.short in layer && layer[p.short] == layer[q.short]
    && ComparePackages(p, q, groupOrder, collate) == 0
  }

  lemma TiedInLayer(entries: seq<Package>, layer: Layering, groupOrder: seq<string>, collate: Collation,
                    p: Package, q: Package)
    requires OneEach(entries) && IsLayering(entries, layer) && p in entries && q in entries
    ensures Tied(entries, groupOrder, collate, p, q) <==> TiedIn(layer, groupOrder, collate, p, q)
  {
    InShorts(entries, p);
    InShorts(entries, q);
    forall k: nat ensures LongestPath(entries, p.short, k) <==> layer[p.short] == k {
      LayerIsLongestPath(entries, layer, p.short, k);
    }
    forall k: nat ensures LongestPath(entries, q.short, k) <==> layer[q.short] == k {
      LayerIsLongestPath(entries, layer, q.short, k);
    }
    assert LongestPath(entries, p.short, layer[p.short]);
  }

  // ---- The result ----

  // Without ties the result ignores the order of the input.
  lemma ResultIgnoresInputOrder(entries: seq<Package>, entries': seq<Package>, groupOrder: seq<string>,
                                collate: Collation, out: seq<Package>, out': seq<Package>)
    requires IsCollation(collate) && OneEach(entries) && NoTies(entries, groupOrder, collate)
    requires multiset(entries) == multiset(entries')
    requires IsResult(entries, Precedes(groupOrder, collate), out)
    requires IsResult(entries', Precedes(groupOrder, collate), out')
    ensures out == out'
  {
    var leq := Precedes(groupOrder, collate);
    var layer := CommonLayering(entries, entries', leq, out, out');
    forall p, q | p in entries && q in entries ensures !TiedIn(layer, groupOrder, collate, p, q) {
      TiedInLayer(entries, layer, groupOrder, collate, p, q);
    }
    OrderWithoutTies(entries, entries', layer, groupOrder, collate, out, out');
  }

  // In particular when the collation tells the short names apart.
  lemma SeparateNamesFixResult(entries: seq<Package>, entries': seq<Package>, groupOrder: seq<string>,
                               collate: Collation, out: seq<Package>, out': seq<Package>)
    requires IsCollation(collate) && OneEach(entries) && multiset(entries) == multiset(entries')
    requires forall p, q :: p in entries && q in entries && p != q ==> collate(p.short, q.short) != 0
    requires IsResult(entries, Precedes(groupOrder, collate), out)
    requires IsResult(entries', Precedes(groupOrder, collate), out')
    ensures out == out'
  {
    ResultIgnoresInputOrder(entries, entries', groupOrder, collate, out, out');
  }

  // Both results are orders of one layering.
  lemma CommonLayering(entries: seq<Package>, entries': seq<Package>, leq: (Package, Package) -> bool,
                       out: seq<Package>, out': seq<Package>) returns (layer: Layering)
    requires OneEach(entries) && multiset(entries) == multiset(entries')
    requires IsResult(entries, leq, out) && IsResult(entries', leq, out')
    ensures IsLayering(entries, layer) && IsOrder(entries, layer, leq, out) && IsOrder(entries', layer, leq, out')
  {
    layer :| IsLayering(entries, layer) && IsOrder(entries, layer, leq, out);
    var layer' :| IsLayering(entries', layer') && IsOrder(entries', layer', leq, out');
    SameMembers(entries, entries');
    LayersAreUnique(entries, entries', layer, layer');
  }

  lemma OrderWithoutTies(entries: seq<Package>, entries': seq<Package>, layer: Layering, groupOrder: seq<string>,
                         collate: Collation, out: seq<Package>, out': seq<Package>)
    requires IsCollation(collate) && multiset(entries) == multiset(entries')
    requires forall p, q :: p in entries && q in entries ==> !TiedIn(layer, groupOrder, collate, p, q)
    requires IsOrder(entries, layer, Precedes(groupOrder, collate), out)
    requires IsOrder(entries', layer, Precedes(groupOrder, collate), out')
    ensures out == out'
  {
    var leq := Precedes(groupOrder, collate);
    SameMembers(out, entries);
    forall p, q | p in out && q in out && LayerOrdered(layer, leq, p, q) && LayerOrdered(layer, leq, q, p)
      ensures p == q
    {
      MutualIsTie(groupOrder, collate, p, q);
      assert !TiedIn(layer, groupOrder, collate, p, q);
    }
    ForgetTies(layer, leq, Before(entries), out);
    ForgetTies(layer, leq, Before(entries'), out');
    SortedIsUnique((p, q) => LayerOrdered(layer, leq, p, q), out, out');
  }

  lemma ForgetTies(layer: Layering, leq: (Package, Package) -> bool, before: (Package, Package) -> bool,
                   out: seq<Package>)
    requires InLayerOrder(layer, Stably(leq, before), out)
    ensures InLayerOrder(layer, leq, out)
  {
    forall i, j | 0 <= i < j < |out| ensures LayerOrdered(layer, leq, out[i], out[j]) {
      assert LayerOrdered(layer, Stably(leq, before), out[i], out[j]);
    }
  }

  lemma MutualIsTie(groupOrder: seq<string>, collate: Collation, p: Package, q: Package)
    requires IsCollation(collate)
    ensures Precedes(groupOrder, collate)(p, q) && Precedes(groupOrder, collate)(q, p)
       <==> ComparePackages(p, q, groupOrder, collate) == 0
  {
    assert collate(p.short, q.short) <= 0 <==> collate(q.short, p.short) >= 0;
    assert collate(q.short, p.short) <= 0 <==> collate(p.short, q.short) >= 0;
    assert collate(p.group, q.group) <= 0 <==> collate(q.group, p.group) >= 0;
    assert collate(q.group, p.group) <= 0 <==> collate(p.group, q.group) >= 0;
  }

  // Tied packages stand as they were given.
  lemma TiesFollowInput(entries: seq<Package>, layer: Layering, groupOrder: seq<string>, collate: Collation,
                        out: seq<Package>, p: Package, q: Package)
    requires IsCollation(collate) && OneEach(entries) && IsOrder(entries, layer, Precedes(groupOrder, collate), out)
    requires TiedIn(layer, groupOrder, collate, p, q) && ComesBefore(entries, p, q)
    ensures ComesBefore(out, p, q)
  {
    var order := Stably(Precedes(groupOrder, collate), Before(entries));
    assert !order(q, p) by {
      MutualIsTie(groupOrder, collate, p, q);
      BeforeIsOneWay(entries, p, q);
    }
    assert p in out && q in out by { SameMembers(out, entries); }
    UnorderedComesFirst(layer, order, out, p, q);
  }

  lemma UnorderedComesFirst(layer: Layering, order: (Package, Package) -> bool, out: seq<Package>, p: Package,
                            q: Package)
    requires InLayerOrder(layer, order, out) && p in out && q in out && p != q
    requires p.short in layer && q.short in layer && layer[p.short] == layer[q.short] && !order(q, p)
    ensures ComesBefore(out, p, q)
  {
    var i :| 0 <= i < |out| && out[i] == p;
    var j :| 0 <= j < |out| && out[j] == q;
    OrderedAt(layer, order, out, j, i);
  }

  lemma BeforeIsOneWay(packages: seq<Package>, p: Package, q: Package)
    requires OneEach(packages) && p != q && ComesBefore(packages, p, q)
    ensures !ComesBefore(packages, q, p)
  {
    OnceIsDistinct(packages);
  }

  ghost predicate IsReversal(entries: seq<Package>, entries': seq<Package>) {
    && multiset(entries) == multiset(entries')
    && forall p, q :: ComesBefore(entries, p, q) ==> ComesBefore(entries', q, p)
  }

  // Exactly the ties make the input order show: listing the packages the other way round gives
  // the same result if and only if no two packages tie.
  lemma ReversalIgnoredIff(entries: seq<Package>, entries': seq<Package>, groupOrder: seq<string>, collate: Collation,
                           out: seq<Package>, out': seq<Package>)
    requires IsCollation(collate) && OneEach(entries) && IsReversal(entries, entries')
    requires IsResult(entries, Precedes(groupOrder, collate), out)
    requires IsResult(entries', Precedes(groupOrder, collate), out')
    ensures out == out' <==> NoTies(entries, groupOrder, collate)
  {
    if NoTies(entries, groupOrder, collate) {
      ResultIgnoresInputOrder(entries, entries', groupOrder, collate, out, out');
    } else {
      var layer := CommonLayering(entries, entries', Precedes(groupOrder, collate), out, out');
      var p, q :| p in entries && q in entries && Tied(entries, groupOrder, collate, p, q);
      TiedInLayer(entries, layer, groupOrder, collate, p, q);
      MutualIsTie(groupOrder, collate, p, q);
      MutualIsTie(groupOrder, collate, q, p);
      OneOfTwoIsFirst(entries, p, q);
      SameMembers(entries, entries');
      if ComesBefore(entries, p, q) {
        TieShows(entries, entries', layer, groupOrder, collate, out, out', p, q);
      } else {
        TieShows(entries, entries', layer, groupOrder, collate, out, out', q, p);
      }
    }
  }

  lemma OneOfTwoIsFirst(packages: seq<Package>, p: Package, q: Package)
    requires p in packages && q in packages && p != q
    ensures ComesBefore(packages, p, q) || ComesBefore(packages, q, p)
  {
    var i :| 0 <= i < |packages| && packages[i] == p;
    var j :| 0 <= j < |packages| && packages[j] == q;
  }

  lemma TieShows(entries: seq<Package>, entries': seq<Package>, layer: Layering, groupOrder: seq<string>,
                 collate: Collation, out: seq<Package>, out': seq<Package>, p: Package, q: Package)
    requires IsCollation(collate) && OneEach(entries) && IsReversal(entries, entries')
    requires IsOrder(entries, layer, Precedes(groupOrder, collate), out)
    requires IsOrder(entries', layer, Precedes(groupOrder, collate), out')
    requires TiedIn(layer, groupOrder, collate, p, q) && TiedIn(layer, groupOrder, collate, q, p)
             && ComesBefore(entries, p, q)
    ensures out != out'
  {
    SameMembers(entries, entries');
    TiesFollowInput(entries, layer, groupOrder, collate, out, p, q);
    TiesFollowInput(entries', layer, groupOrder, collate, out', q, p);
    SameMembers(entries, out);
    BeforeIsOneWay(out, p, q);
  }

  // ---- A tie ----

  // Two packages of one group without dependencies, whose names a collation does not tell apart,
  // stay in whichever order they are given.
  lemma TiedNamesShow(a: string, b: string, group: string, groupOrder: seq<string>, collate: Collation)
    requires IsCollation(collate) && a != b && collate(a, b) == 0
    ensures var p, q := Package(a, group, []), Package(b, group, []);
      && OneEach([p, q]) && IsReversal([p, q], [q, p]) && Tied([p, q], groupOrder, collate, p, q)
      && IsResult([p, q], Precedes(groupOrder, collate), [p, q])
      && IsResult([q, p], Precedes(groupOrder, collate), [q, p])
  {
    var p, q := Package(a, group, []), Package(b, group, []);
    assert collate(group, group) == 0 && collate(b, a) == 0 by {
      assert collate(group, group) <= 0 <==> collate(group, group) >= 0;
      assert collate(a, b) <= 0 <==> collate(b, a) >= 0;
      assert collate(b, a) <= 0 <==> collate(a, b) >= 0;
    }
    PairIsResult(p, q, groupOrder, collate);
    PairIsResult(q, p, groupOrder, collate);
    PairOrder(p, q);
    PairOrder(q, p);
    assert multiset([p, q]) == multiset([q, p]);
    var layer := map[p.short := 0, q.short := 0];
    TiedInLayer([p, q], layer, groupOrder, collate, p, q);
  }

  lemma PairOrder(p: Package, q: Package)
    ensures ComesBefore([p, q], p, q)
    ensures forall x, y :: ComesBefore([p, q], x, y) ==> x == p && y == q
  {
    assert [p, q][0] == p && [p, q][1] == q;
  }

  lemma PairIsResult(p: Package, q: Package, groupOrder: seq<string>, collate: Collation)
    requires p.short != q.short && p.deps == [] && q.deps == [] && ComparePackages(p, q, groupOrder, collate) == 0
    ensures OneEach([p, q]) && IsLayering([p, q], map[p.short := 0, q.short := 0])
    ensures IsResult([p, q], Precedes(groupOrder, collate), [p, q])
  {
    var layer, order := map[p.short := 0, q.short := 0], Stably(Precedes(groupOrder, collate), Before([p, q]));
    UniqueIsOneEach([p, q]);
    assert [p, q][1..] == [q] && [q][1..] == [];
    assert Shorts([p, q]) == {p.short, q.short} by { assert Shorts([q]) == {q.short}; }
    assert Layered(layer, p) && Layered(layer, q);
    PairOrder(p, q);
    assert order(p, q);
    assert InLayerOrder(layer, order, [p, q]);
    assert IsOrder([p, q], layer, Precedes(groupOrder, collate), [p, q]);
  }

  // ---- The packages as given ----

  // The sort takes its packages from a map, which holds of each short name the last package.
  ghost predicate LastOfName(packages: seq<Package>, p: Package) {
    exists i :: IsLastAt(packages, p, i)
  }

  ghost predicate IsLastAt(packages: seq<Package>, p: Package, i: int) {
    0 <= i < |packages| && packages[i] == p && forall j :: i < j < |packages| ==> packages[j].short != p.short
  }

  lemma {:induction false} PutEntryIff(entries: seq<Package>, p: Package, e: Package)
    requires UniqueShorts(entries)
    ensures e in PutEntry(entries, p) <==> e == p || (e in entries && e.short != p.short)
    ensures UniqueShorts(PutEntry(entries, p))
  {
    if entries != [] {
      var first, rest := entries[0], entries[1..];
      assert entries == [first] + rest;
      if first.short != p.short {
        PutEntryIff(rest, p, e);
        forall x | x in PutEntry(rest, p) ensures x.short != first.short { PutEntryIff(rest, p, x); }
        assert PutEntry(entries, p) == [first] + PutEntry(rest, p);
      } else {
        assert PutEntry(entries, p) == [p] + rest;
      }
    }
  }

  lemma LastOfNameGrows(front: seq<Package>, last: Package, p: Package)
    ensures LastOfName(front + [last], p) <==> p == last || (p.short != last.short && LastOfName(front, p))
  {
    var packages, n := front + [last], |front|;
    assert IsLastAt(packages, last, n);
    if LastOfName(packages, p) && p != last {
      var i :| IsLastAt(packages, p, i);
      assert i < n && packages[n].short != p.short;
      assert IsLastAt(front, p, i) by {
        forall j | i < j < n ensures front[j].short != p.short { assert packages[j] == front[j]; }
      }
    }
    if LastOfName(front, p) && p.short != last.short {
      var i :| IsLastAt(front, p, i);
      assert IsLastAt(packages, p, i);
    }
  }

  lemma {:induction false} EntryIsLastOfName(packages: seq<Package>, p: Package)
    ensures p in ByShort(packages) <==> LastOfName(packages, p)
  {
    if packages != [] {
      var front, last := packages[..|packages| - 1], packages[|packages| - 1];
      assert packages == front + [last];
      EntryIsLastOfName(front, p);
      NextIsLastOfName(front, last, p);
    }
  }

  lemma NextIsLastOfName(front: seq<Package>, last: Package, p: Package)
    requires p in ByShort(front) <==> LastOfName(front, p)
    ensures p in ByShort(front + [last]) <==> LastOfName(front + [last], p)
  {
    NextEntry(front, last);
    EntriesAreUnique(front);
    PutEntryIff(ByShort(front), last, p);
    LastOfNameGrows(front, last, p);
  }

  // Under unique short names the results for a list of packages and its reversal are equal if and
  // only if no two of them tie.
  lemma PackagesReversedIff(packages: seq<Package>, packages': seq<Package>, groupOrder: seq<string>,
                            collate: Collation, out: seq<Package>, out': seq<Package>)
    requires IsCollation(collate) && UniqueShorts(packages) && UniqueShorts(packages')
             && IsReversal(packages, packages')
    requires IsResult(ByShort(packages), Precedes(groupOrder, collate), out)
    requires IsResult(ByShort(packages'), Precedes(groupOrder, collate), out')
    ensures OneEach(packages) && (out == out' <==> NoTies(packages, groupOrder, collate))
  {
    UniqueEntries(packages);
    UniqueEntries(packages');
    UniqueIsOneEach(packages);
    ReversalIgnoredIff(packages, packages', groupOrder, collate, out, out');
  }
}
