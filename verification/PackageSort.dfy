// topoSort: its loop, its result and exactly when it throws.
module PackageSort {
  import opened Digraphs
  import opened Sorting
  import opened PackageGraph

  ghost predicate OneEach(entries: seq<Package>) {
    && (forall p :: p in entries ==> multiset(entries)[p] == 1)
    && (forall p, q :: p in entries && q in entries && p.short == q.short ==> p == q)
  }

  lemma {:induction false} PutShape(entries: seq<Package>, p: Package) returns (k: nat)
    ensures if k < |entries| then entries[k].short == p.short && PutEntry(entries, p) == entries[k := p]
            else PutEntry(entries, p) == entries + [p] && forall i :: 0 <= i < |entries| ==> entries[i].short != p.short
  {
    if entries == [] {
      k := 0;
    } else if entries[0].short == p.short {
      k := 0;
      assert entries[0 := p] == [p] + entries[1..];
    } else {
      k := PutShape(entries[1..], p);
      k := k + 1;
      assert entries == [entries[0]] + entries[1..];
    }
  }

  lemma {:induction false} EntriesAreUnique(packages: seq<Package>)
    ensures UniqueShorts(ByShort(packages))
  {
    if packages != [] {
      EntriesAreUnique(packages[..|packages| - 1]);
      var k := PutShape(ByShort(packages[..|packages| - 1]), packages[|packages| - 1]);
    }
  }

  lemma OneMoreEach(first: Package, rest: seq<Package>)
    requires OneEach(rest) && forall q :: q in rest ==> q.short != first.short
    ensures OneEach([first] + rest)
  {
    assert multiset([first] + rest) == multiset{first} + multiset(rest);
  }

  lemma {:induction false} UniqueIsOneEach(entries: seq<Package>)
    requires UniqueShorts(entries)
    ensures OneEach(entries)
  {
    if entries != [] {
      var first, rest := entries[0], entries[1..];
      UniqueIsOneEach(rest);
      assert entries == [first] + rest;
      forall q | q in rest ensures q.short != first.short {
        var k :| 0 <= k < |rest| && rest[k] == q;
        assert entries[0].short != entries[k + 1].short;
      }
      OneMoreEach(first, rest);
    }
  }

  // ---- Layers and cycles ----

  ghost function DependencyGraph(entries: seq<Package>): Graph<string>
    requires OneEach(entries)
  {
    map n | n in Shorts(entries) ::
      (ShortIsListed(entries, n); var p :| p in entries && p.short == n; p.deps)
  }

  lemma GraphAt(entries: seq<Package>, p: Package)
    requires OneEach(entries) && p in entries
    ensures p.short in DependencyGraph(entries) && DependencyGraph(entries)[p.short] == p.deps
  {
    InShorts(entries, p);
  }

  // Every dependency is listed and none of them leads back.
  ghost predicate Schedulable(entries: seq<Package>)
    requires OneEach(entries)
  {
    && (forall p, d :: p in entries && d in p.deps ==> d in Shorts(entries))
    && Acyclic(DependencyGraph(entries))
  }

  lemma LayeringMeansSchedulable(entries: seq<Package>, layer: Layering)
    requires OneEach(entries) && IsLayering(entries, layer)
    ensures Schedulable(entries)
  {
    var g := DependencyGraph(entries);
    forall p, d | p in entries && d in p.deps ensures d in Shorts(entries) {
      assert Layered(layer, p);
    }
    assert g.Keys == layer.Keys;
    forall a, b | IsEdge(g, a, b) && b in g ensures layer[b] < layer[a] {
      ShortIsListed(entries, a);
      var p :| p in entries && p.short == a;
      GraphAt(entries, p);
      assert Layered(layer, p);
    }
    assert IsRank(g, layer);
    AcyclicIffRanked(g);
  }

  // Some unplaced package waits only for placed ones, unless the set is not schedulable.
  lemma SomeIsReady(entries: seq<Package>, placed: set<string>, remaining: seq<Package>)
    requires OneEach(entries) && Schedulable(entries) && remaining != []
    requires forall p :: p in remaining <==> p in entries && p.short !in placed
    ensures exists p :: p in remaining && IsReady(placed, p)
  {
    var g, waiting := DependencyGraph(entries), Shorts(remaining);
    InShorts(remaining, remaining[0]);
    forall n | n in waiting ensures n in g {
      ShortIsListed(remaining, n);
      var p :| p in remaining && p.short == n;
      GraphAt(entries, p);
    }
    AcyclicHasSink(g, waiting);
    var n :| n in waiting && !Continues(g, waiting, n);
    ShortIsListed(remaining, n);
    var p :| p in remaining && p.short == n;
    GraphAt(entries, p);
    forall d | d in p.deps ensures d in placed {
      assert d !in waiting;
      assert p in entries && d in Shorts(entries);
      ShortIsListed(entries, d);
      var q :| q in entries && q.short == d;
      InShorts(remaining, q);
    }
    assert IsReady(placed, p);
  }

  // ---- One round ----

  // The order in which the packages are listed.
  ghost function Before(packages: seq<Package>): (Package, Package) -> bool {
    (p, q) => ComesBefore(packages, p, q)
  }

  ghost predicate ComesBefore(packages: seq<Package>, p: Package, q: Package) {
    exists i, j :: 0 <= i < j < |packages| && packages[i] == p && packages[j] == q
  }

  // Choosing the ready packages reorders neither them nor the others.
  lemma {:induction false} SplitKeepsOrder(before: (Package, Package) -> bool, placed: set<string>,
                                           remaining: seq<Package>)
    requires Sorted(before, remaining)
    ensures Sorted(before, ReadyOf(placed, remaining)) && Sorted(before, NotReadyOf(placed, remaining))
  {
    if remaining != [] {
      var rest := remaining[1..];
      SplitKeepsOrder(before, placed, rest);
      forall q | q in rest ensures before(remaining[0], q) {
        var k :| 0 <= k < |rest| && rest[k] == q;
        assert before(remaining[0], remaining[k + 1]);
      }
      SortedCons(before, remaining[0],
                 if IsReady(placed, remaining[0]) then ReadyOf(placed, rest) else NotReadyOf(placed, rest));
    }
  }

  ghost predicate RoundInvariant(entries: seq<Package>, leq: (Package, Package) -> bool, remaining: seq<Package>,
                                 out: seq<Package>, layer: Layering, round: nat)
  {
    && multiset(out) + multiset(remaining) == multiset(entries)
    && layer.Keys == Shorts(out)
    && PlacedBelow(layer, round, out)
    && InLayerOrder(layer, Stably(leq, Before(entries)), out)
    && Sorted(Before(entries), remaining)
    && AllWait(layer, round, remaining)
  }

  ghost predicate PlacedBelow(layer: Layering, round: nat, out: seq<Package>) {
    forall p :: p in out ==> Layered(layer, p) && layer[p.short] < round
  }

  ghost predicate AllWait(layer: Layering, round: nat, remaining: seq<Package>) {
    forall p :: p in remaining ==> WaitsFor(layer, round, p)
  }

  // A package still remaining was not ready in the previous round.
  ghost predicate WaitsFor(layer: Layering, round: nat, p: Package) {
    round > 0 ==> exists d :: d in p.deps && (d in layer ==> layer[d] == round - 1)
  }

  lemma RemainingUnplaced(entries: seq<Package>, remaining: seq<Package>, out: seq<Package>)
    requires OneEach(entries) && multiset(out) + multiset(remaining) == multiset(entries)
    ensures forall p :: p in remaining <==> p in entries && p.short !in Shorts(out)
    ensures forall p :: p in out ==> p in entries
  {
    forall p | p in out ensures p in entries {
      assert p in multiset(out) + multiset(remaining);
    }
    forall p ensures p in remaining <==> p in entries && p.short !in Shorts(out) {
      assert p in entries <==> p in multiset(out) + multiset(remaining);
      assert multiset(entries)[p] == multiset(out)[p] + multiset(remaining)[p];
      InShorts(out, p);
      if p.short in Shorts(out) {
        ShortIsListed(out, p.short);
        var q :| q in out && q.short == p.short;
        assert q in entries;
      }
    }
  }

  lemma RoundAddsLayer(entries: seq<Package>, leq: (Package, Package) -> bool, remaining: seq<Package>,
                       out: seq<Package>, layer: Layering, round: nat, ready: seq<Package>, layer': Layering)
    requires OneEach(entries) && TotalPreorder(leq) && RoundInvariant(entries, leq, remaining, out, layer, round)
    requires ready == Sort(leq, ReadyOf(Shorts(out), remaining))
    requires layer' == layer + map n | n in Shorts(ready) :: round
    ensures RoundInvariant(entries, leq, NotReadyOf(Shorts(out), remaining), out + ready, layer', round + 1)
  {
    SortKeepsMembers(leq, ReadyOf(Shorts(out), remaining));
    RemainingUnplaced(entries, remaining, out);
    ReadyIsNew(remaining, out, ready);
    StablySorted(leq, Before(entries), Shorts(out), remaining, ready);
    NewLayerOrder(Stably(leq, Before(entries)), out, layer, round, ready, layer');
    AllLayered(remaining, out, layer, round, ready, layer');
    OthersWait(remaining, out, layer, round, ready, layer');
    ShortsConcat(out, ready);
    assert layer'.Keys == Shorts(out + ready);
    ReadyMoves(entries, leq, Shorts(out), remaining, out, ready);
  }

  lemma ReadyMoves(entries: seq<Package>, leq: (Package, Package) -> bool, placed: set<string>,
                   remaining: seq<Package>, out: seq<Package>, ready: seq<Package>)
    requires multiset(out) + multiset(remaining) == multiset(entries) && ready == Sort(leq, ReadyOf(placed, remaining))
    ensures multiset(out + ready) + multiset(NotReadyOf(placed, remaining)) == multiset(entries)
  {
  }

  lemma StablySorted(leq: (Package, Package) -> bool, before: (Package, Package) -> bool, placed: set<string>,
                     remaining: seq<Package>, ready: seq<Package>)
    requires TotalPreorder(leq) && Sorted(before, remaining) && ready == Sort(leq, ReadyOf(placed, remaining))
    ensures Sorted(Stably(leq, before), ready) && Sorted(before, NotReadyOf(placed, remaining))
  {
    SplitKeepsOrder(before, placed, remaining);
    SortIsStable(leq, before, ReadyOf(placed, remaining));
  }

  lemma ReadyIsNew(remaining: seq<Package>, out: seq<Package>, ready: seq<Package>)
    requires forall p :: p in remaining ==> p.short !in Shorts(out)
    requires forall p :: p in ready ==> p in remaining
    ensures Shorts(out) !! Shorts(ready)
  {
    forall n | n in Shorts(ready) ensures n !in Shorts(out) {
      ShortIsListed(ready, n);
      var p :| p in ready && p.short == n;
      assert p in remaining;
    }
  }

  lemma AllLayered(remaining: seq<Package>, out: seq<Package>, layer: Layering, round: nat, ready: seq<Package>,
                   layer': Layering)
    requires layer' == layer + map n | n in Shorts(ready) :: round
    requires layer.Keys == Shorts(out) && layer.Keys !! Shorts(ready)
    requires PlacedBelow(layer, round, out)
    requires forall p :: p in ready ==> p in remaining && IsReady(layer.Keys, p)
    requires AllWait(layer, round, remaining)
    ensures PlacedBelow(layer', round + 1, out + ready)
  {
    forall n | n in layer ensures layer[n] < round {
      ShortIsListed(out, n);
      var p :| p in out && p.short == n;
    }
    forall p | p in out + ready ensures Layered(layer', p) && layer'[p.short] < round + 1 {
      if p in out {
        OldStaysLayered(layer, layer', p);
      } else {
        assert p in ready;
        NewIsLayered(layer, round, ready, layer', p);
      }
    }
  }

  lemma OthersWait(remaining: seq<Package>, out: seq<Package>, layer: Layering, round: nat, ready: seq<Package>,
                   layer': Layering)
    requires layer' == layer + map n | n in Shorts(ready) :: round
    requires layer.Keys == Shorts(out)
    ensures AllWait(layer', round + 1, NotReadyOf(Shorts(out), remaining))
  {
    forall p | p in NotReadyOf(Shorts(out), remaining) ensures WaitsFor(layer', round + 1, p) {
      var d :| d in p.deps && d !in Shorts(out);
      assert d in layer' ==> layer'[d] == round;
    }
  }

  lemma OldStaysLayered(layer: Layering, layer': Layering, p: Package)
    requires Layered(layer, p) && forall n :: n in layer ==> n in layer' && layer'[n] == layer[n]
    ensures Layered(layer', p)
  {
  }

  lemma NewIsLayered(layer: Layering, round: nat, ready: seq<Package>, layer': Layering, p: Package)
    requires layer' == layer + map n | n in Shorts(ready) :: round
    requires layer.Keys !! Shorts(ready)
    requires p in ready && IsReady(layer.Keys, p) && WaitsFor(layer, round, p)
    requires forall n :: n in layer ==> layer[n] < round
    ensures Layered(layer', p) && layer'[p.short] == round
  {
    InShorts(ready, p);
  }

  lemma NewLayerOrder(leq: (Package, Package) -> bool, out: seq<Package>, layer: Layering, round: nat,
                      ready: seq<Package>, layer': Layering)
    requires layer' == layer + map n | n in Shorts(ready) :: round
    requires layer.Keys == Shorts(out) && layer.Keys !! Shorts(ready)
    requires PlacedBelow(layer, round, out)
    requires InLayerOrder(layer, leq, out) && Sorted(leq, ready)
    ensures InLayerOrder(layer', leq, out + ready)
  {
    var all := out + ready;
    forall i, j | 0 <= i < j < |all| ensures LayerOrdered(layer', leq, all[i], all[j]) {
      if j < |out| {
        assert LayerOrdered(layer, leq, out[i], out[j]);
        assert all[i] == out[i] && all[j] == out[j];
      } else {
        assert all[j] == ready[j - |out|];
        InShorts(ready, all[j]);
        if i < |out| {
          assert all[i] == out[i] && out[i] in out;
        } else {
          assert all[i] == ready[i - |out|];
          InShorts(ready, all[i]);
        }
      }
    }
  }

  // ---- The loop ----

  datatype SortResult = Ordered(out: seq<Package>) | CycleAmong(names: seq<string>)

  function Names(packages: seq<Package>): seq<string> {
    seq(|packages|, i requires 0 <= i < |packages| => packages[i].short)
  }

  // All dependencies of the package are listed and can be placed before it.
  least predicate CanPlace(entries: seq<Package>, p: Package) {
    forall d :: d in p.deps ==> exists q :: q in entries && q.short == d && CanPlace(entries, q)
  }

  // What the error names: the packages that can never be placed, in the order given.
  ghost predicate IsStuck(entries: seq<Package>, stuck: seq<Package>) {
    && (forall p :: p in stuck <==> p in entries && !CanPlace(entries, p))
    && Sorted(Before(entries), stuck)
  }

  ghost predicate NamesStuck(entries: seq<Package>, names: seq<string>) {
    exists stuck :: IsStuck(entries, stuck) && names == Names(stuck)
  }

  // If nothing is ready, what remains can never be placed,
  least lemma {:induction false} WaitingIsStuck(entries: seq<Package>, placed: set<string>, remaining: seq<Package>,
                                                p: Package)
    requires CanPlace(entries, p)
    requires forall q :: q in remaining <==> q in entries && q.short !in placed
    requires forall q :: q in remaining ==> !IsReady(placed, q)
    ensures p !in remaining
  {
    if p in remaining {
      var d :| d in p.deps && d !in placed;
      var q :| q in entries && q.short == d && CanPlace#[_k - 1](entries, q);
      WaitingIsStuck(entries, placed, remaining, q);
    }
  }

  // and what has been placed can be.
  lemma {:induction false} PlacedCanBe(entries: seq<Package>, layer: Layering, out: seq<Package>, p: Package)
    requires layer.Keys == Shorts(out) && (forall q :: q in out ==> q in entries && Layered(layer, q))
    requires p in out && p.short in layer
    ensures CanPlace(entries, p)
    decreases layer[p.short]
  {
    forall d | d in p.deps ensures exists q :: q in entries && q.short == d && CanPlace(entries, q) {
      ShortIsListed(out, d);
      var q :| q in out && q.short == d;
      PlacedCanBe(entries, layer, out, q);
    }
  }

  lemma RemainingIsStuck(entries: seq<Package>, leq: (Package, Package) -> bool, remaining: seq<Package>,
                         out: seq<Package>, layer: Layering, round: nat)
    requires OneEach(entries) && RoundInvariant(entries, leq, remaining, out, layer, round)
    requires Sort(leq, ReadyOf(Shorts(out), remaining)) == []
    ensures NamesStuck(entries, Names(remaining))
  {
    SortKeepsMembers(leq, ReadyOf(Shorts(out), remaining));
    RemainingUnplaced(entries, remaining, out);
    forall p ensures p in remaining <==> p in entries && !CanPlace(entries, p) {
      if p in entries && p !in remaining {
        ShortIsListed(out, p.short);
        var q :| q in out && q.short == p.short;
        PlacedCanBe(entries, layer, out, q);
      }
      if p in remaining && CanPlace(entries, p) {
        WaitingIsStuck(entries, Shorts(out), remaining, p);
      }
    }
    assert IsStuck(entries, remaining);
  }

  lemma StuckMeansCycle(entries: seq<Package>, leq: (Package, Package) -> bool, remaining: seq<Package>,
                        out: seq<Package>, layer: Layering, round: nat)
    requires OneEach(entries) && RoundInvariant(entries, leq, remaining, out, layer, round)
    requires remaining != [] && Sort(leq, ReadyOf(Shorts(out), remaining)) == []
    ensures !Schedulable(entries)
  {
    SortKeepsMembers(leq, ReadyOf(Shorts(out), remaining));
    RemainingUnplaced(entries, remaining, out);
    if Schedulable(entries) {
      SomeIsReady(entries, Shorts(out), remaining);
    }
  }

  lemma NextRound(entries: seq<Package>, groupOrder: seq<string>, collate: Collation, remaining: seq<Package>,
                  out: seq<Package>, layer: Layering, round: nat, ready: seq<Package>)
    returns (layer': Layering)
    requires OneEach(entries) && IsCollation(collate)
    requires RoundInvariant(entries, Precedes(groupOrder, collate), remaining, out, layer, round)
    requires ready == Sort(Precedes(groupOrder, collate), ReadyOf(Shorts(out), remaining)) && ready != []
    ensures RoundInvariant(entries, Precedes(groupOrder, collate), NotReadyOf(Shorts(out), remaining), out + ready,
                           layer', round + 1)
    ensures |NotReadyOf(Shorts(out), remaining)| < |remaining| && Shorts(out) + Shorts(ready) == Shorts(out + ready)
  {
    var leq := Precedes(groupOrder, collate);
    PrecedesIsPreorder(groupOrder, collate);
    layer' := layer + map n | n in Shorts(ready) :: round;
    RoundAddsLayer(entries, leq, remaining, out, layer, round, ready, layer');
    SortKeepsMembers(leq, ReadyOf(Shorts(out), remaining));
    FewerRemain(Shorts(out), remaining);
    ShortsConcat(out, ready);
  }

  // All packages, by layer and comparePackages; packages that tie stand in their input order.
  ghost predicate IsOrder(entries: seq<Package>, layer: Layering, leq: (Package, Package) -> bool, out: seq<Package>) {
    multiset(out) == multiset(entries) && InLayerOrder(layer, Stably(leq, Before(entries)), out)
  }

  ghost predicate IsResult(entries: seq<Package>, leq: (Package, Package) -> bool, out: seq<Package>) {
    exists layer :: IsLayering(entries, layer) && IsOrder(entries, layer, leq, out)
  }

  // Orders the packages by layer and comparePackages, or throws exactly if some dependency is
  // not listed or the dependencies are cyclic.
  method TopoSort(packages: seq<Package>, groupOrder: seq<string>, collate: Collation)
    returns (r: SortResult)
    requires IsCollation(collate)
    ensures OneEach(ByShort(packages)) && (r.Ordered? <==> Schedulable(ByShort(packages)))
    ensures r.Ordered? ==> IsResult(ByShort(packages), Precedes(groupOrder, collate), r.out)
    ensures r.CycleAmong? ==> NamesStuck(ByShort(packages), r.names)
  {
    var entries, leq := ByShort(packages), Precedes(groupOrder, collate);
    EntriesAreUnique(packages);
    UniqueIsOneEach(entries);
    var remaining, placed, out := entries, {}, [];
    ghost var layer: Layering, round := map[], 0;
    FirstRound(entries, leq);
    while remaining != []
      invariant RoundInvariant(entries, leq, remaining, out, layer, round) && placed == Shorts(out)
      decreases |remaining|
    {
      var ready := Sort(leq, ReadyOf(placed, remaining));
      if ready == [] {
        StuckMeansCycle(entries, leq, remaining, out, layer, round);
        RemainingIsStuck(entries, leq, remaining, out, layer, round);
        return CycleAmong(Names(remaining));
      }
      layer := NextRound(entries, groupOrder, collate, remaining, out, layer, round, ready);
      round := round + 1;
      remaining := NotReadyOf(placed, remaining);
      out := out + ready;
      placed := placed + Shorts(ready);
    }
    AllPlaced(entries, leq, out, layer, round);
    r := Ordered(out);
  }

  lemma FirstRound(entries: seq<Package>, leq: (Package, Package) -> bool)
    requires OneEach(entries)
    ensures RoundInvariant(entries, leq, entries, [], map[], 0)
  {
  }

  lemma FewerRemain(placed: set<string>, remaining: seq<Package>)
    requires ReadyOf(placed, remaining) != []
    ensures |NotReadyOf(placed, remaining)| < |remaining|
  {
    assert |multiset(NotReadyOf(placed, remaining)) + multiset(ReadyOf(placed, remaining))| == |multiset(remaining)|;
  }

  lemma AllPlaced(entries: seq<Package>, leq: (Package, Package) -> bool, out: seq<Package>, layer: Layering,
                  round: nat)
    requires OneEach(entries) && RoundInvariant(entries, leq, [], out, layer, round)
    ensures IsResult(entries, leq, out) && Schedulable(entries)
  {
    assert multiset(out) + multiset([]) == multiset(out);
    SameMembers(entries, out);
    SameShorts(entries, out);
    assert IsLayering(entries, layer) && IsOrder(entries, layer, leq, out);
    LayeringMeansSchedulable(entries, layer);
  }

  // ---- What the order means ----

  // Every dependency comes before its dependents.
  lemma DependenciesFirst(entries: seq<Package>, layer: Layering, leq: (Package, Package) -> bool, out: seq<Package>,
                          i: nat, j: nat)
    requires IsLayering(entries, layer) && IsOrder(entries, layer, leq, out)
    requires i < |out| && j < |out| && out[i].short in out[j].deps
    ensures i < j
  {
    assert out[j] in multiset(entries);
    assert Layered(layer, out[j]);
    OrderedAt(layer, Stably(leq, Before(entries)), out, j, i);
  }

  lemma OrderedAt(layer: Layering, leq: (Package, Package) -> bool, out: seq<Package>, i: nat, j: nat)
    requires InLayerOrder(layer, leq, out) && i < |out| && j < |out|
    ensures i < j ==> LayerOrdered(layer, leq, out[i], out[j])
  {
  }

  // A layer is the length of the longest dependency path of the package: no path is longer.
  lemma {:induction false} PathsFitLayer(entries: seq<Package>, layer: Layering, path: seq<string>)
    requires OneEach(entries) && IsLayering(entries, layer) && IsWalk(DependencyGraph(entries), path)
    requires path[0] in layer
    ensures |path| - 1 <= layer[path[0]]
    decreases |path|
  {
    if |path| > 1 {
      assert EdgeAt(DependencyGraph(entries), path, 0);
      var p :| p in entries && p.short == path[0];
      GraphAt(entries, p);
      assert Layered(layer, p);
      var rest := path[1..];
      forall i: nat | i + 1 < |rest| ensures EdgeAt(DependencyGraph(entries), rest, i) {
        assert EdgeAt(DependencyGraph(entries), path, i + 1);
      }
      PathsFitLayer(entries, layer, rest);
    }
  }

  // And one path is as long.
  lemma {:induction false} SomePathFillsLayer(entries: seq<Package>, layer: Layering, n: string)
    returns (path: seq<string>)
    requires OneEach(entries) && IsLayering(entries, layer) && n in layer
    ensures IsWalk(DependencyGraph(entries), path) && path[0] == n && |path| - 1 == layer[n]
    decreases layer[n]
  {
    ShortIsListed(entries, n);
    var p :| p in entries && p.short == n;
    GraphAt(entries, p);
    assert Layered(layer, p);
    if layer[n] == 0 {
      path := [n];
    } else {
      var d :| d in p.deps && d in layer && layer[d] == layer[n] - 1;
      path := SomePathFillsLayer(entries, layer, d);
      WalkCons(DependencyGraph(entries), n, path);
      path := [n] + path;
    }
  }

  lemma LayerAtMost(entries: seq<Package>, entries': seq<Package>, layer: Layering, layer': Layering, n: string)
    requires OneEach(entries) && OneEach(entries') && DependencyGraph(entries) == DependencyGraph(entries')
    requires IsLayering(entries, layer) && IsLayering(entries', layer')
    requires n in layer && n in layer'
    ensures layer[n] <= layer'[n]
  {
    var path := SomePathFillsLayer(entries, layer, n);
    PathsFitLayer(entries', layer', path);
  }

  lemma LayersAtMost(entries: seq<Package>, entries': seq<Package>, layer: Layering, layer': Layering)
    requires OneEach(entries) && OneEach(entries') && multiset(entries) == multiset(entries')
    requires IsLayering(entries, layer) && IsLayering(entries', layer')
    ensures layer.Keys == layer'.Keys && forall n :: n in layer ==> layer[n] <= layer'[n]
  {
    SameNames(entries, entries');
    forall n | n in layer ensures layer[n] <= layer'[n] {
      LayerAtMost(entries, entries', layer, layer', n);
    }
  }

  // So the packages alone determine the layers,
  lemma LayersAreUnique(entries: seq<Package>, entries': seq<Package>, layer: Layering, layer': Layering)
    requires OneEach(entries) && OneEach(entries') && multiset(entries) == multiset(entries')
    requires IsLayering(entries, layer) && IsLayering(entries', layer')
    ensures layer == layer'
  {
    LayersAtMost(entries, entries', layer, layer');
    LayersAtMost(entries', entries, layer', layer);
  }

  lemma SameNames(entries: seq<Package>, entries': seq<Package>)
    requires OneEach(entries) && OneEach(entries') && multiset(entries) == multiset(entries')
    ensures DependencyGraph(entries) == DependencyGraph(entries') && Shorts(entries) == Shorts(entries')
  {
    SameMembers(entries, entries');
    SameGraph(entries, entries');
    SameShorts(entries, entries');
  }

  lemma SameMembers(a: seq<Package>, b: seq<Package>)
    requires multiset(a) == multiset(b)
    ensures forall p :: p in a <==> p in b
  {
    forall p ensures p in a <==> p in b {
      assert p in multiset(a) <==> p in multiset(b);
    }
  }

  lemma SameGraph(entries: seq<Package>, entries': seq<Package>)
    requires OneEach(entries) && OneEach(entries') && forall p :: p in entries <==> p in entries'
    ensures DependencyGraph(entries) == DependencyGraph(entries')
  {
    SameShorts(entries, entries');
    forall n | n in Shorts(entries) ensures DependencyGraph(entries)[n] == DependencyGraph(entries')[n] {
      ShortIsListed(entries, n);
      var p :| p in entries && p.short == n;
      GraphAt(entries, p);
      GraphAt(entries', p);
    }
  }
}
