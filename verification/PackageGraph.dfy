// The dependency-safe order of workspace packages: rounds of ready packages, each sorted by
// group order, group name and short name.
module PackageGraph {
  import opened Sorting

  datatype Package = Package(short: string, group: string, deps: seq<string>)

  // localeCompare: negative, zero or positive.
  type Collation = (string, string) -> int

  const MAX_SAFE_INTEGER: int := 9007199254740991

  ghost predicate IsCollation(c: Collation) {
    && (forall x, y :: c(x, y) <= 0 <==> c(y, x) >= 0)
    && (forall x, y, z :: c(x, y) <= 0 && c(y, z) <= 0 ==> c(x, z) <= 0)
  }

  function IndexOf(names: seq<string>, name: string): (i: int)
    ensures -1 <= i < |names|
  {
    if names == [] then -1
    else if names[0] == name then 0
    else var i := IndexOf(names[1..], name); if i == -1 then -1 else i + 1
  }

  function GroupRank(groupOrder: seq<string>, group: string): int {
    if IndexOf(groupOrder, group) == -1 then MAX_SAFE_INTEGER else IndexOf(groupOrder, group)
  }

  function ComparePackages(a: Package, b: Package, groupOrder: seq<string>, collate: Collation): int {
    var byRank := GroupRank(groupOrder, a.group) - GroupRank(groupOrder, b.group);
    if byRank != 0 then byRank
    else if collate(a.group, b.group) != 0 then collate(a.group, b.group)
    else collate(a.short, b.short)
  }

  function Precedes(groupOrder: seq<string>, collate: Collation): (Package, Package) -> bool {
    (a, b) => ComparePackages(a, b, groupOrder, collate) <= 0
  }

  lemma CollationTies(c: Collation, x: string, y: string, z: string)
    requires IsCollation(c) && c(x, y) <= 0 && c(y, z) <= 0 && c(x, z) == 0
    ensures c(x, y) == 0 && c(y, z) == 0
  {
    assert c(z, x) == 0 by { assert c(z, x) <= 0 <==> c(x, z) >= 0; assert c(x, z) <= 0 <==> c(z, x) >= 0; }
    assert c(z, y) <= 0;
    assert c(y, x) <= 0;
  }

  lemma PrecedesTransitive(groupOrder: seq<string>, collate: Collation, a: Package, b: Package, c: Package)
    requires IsCollation(collate)
    requires Precedes(groupOrder, collate)(a, b) && Precedes(groupOrder, collate)(b, c)
    ensures Precedes(groupOrder, collate)(a, c)
  {
    if GroupRank(groupOrder, a.group) == GroupRank(groupOrder, b.group) == GroupRank(groupOrder, c.group) {
      assert collate(a.group, c.group) <= 0;
      if collate(a.group, c.group) == 0 {
        CollationTies(collate, a.group, b.group, c.group);
      }
    }
  }

  lemma PrecedesIsPreorder(groupOrder: seq<string>, collate: Collation)
    requires IsCollation(collate)
    ensures TotalPreorder(Precedes(groupOrder, collate))
  {
    var leq := Precedes(groupOrder, collate);
    forall a, b ensures leq(a, b) || leq(b, a) {
      assert collate(a.group, b.group) <= 0 <==> collate(b.group, a.group) >= 0;
      assert collate(b.group, a.group) <= 0 <==> collate(a.group, b.group) >= 0;
      assert collate(a.short, b.short) <= 0 <==> collate(b.short, a.short) >= 0;
    }
    forall a, b, c | leq(a, b) && leq(b, c) ensures leq(a, c) {
      PrecedesTransitive(groupOrder, collate, a, b, c);
    }
  }

  // ---- Layers ----

  type Layering = map<string, nat>

  function Shorts(packages: seq<Package>): set<string> {
    if packages == [] then {} else {packages[0].short} + Shorts(packages[1..])
  }

  lemma {:induction false} InShorts(packages: seq<Package>, p: Package)
    ensures p in packages ==> p.short in Shorts(packages)
  {
    if packages != [] && p != packages[0] {
      assert packages == [packages[0]] + packages[1..];
      InShorts(packages[1..], p);
    }
  }

  lemma {:induction false} ShortIsListed(packages: seq<Package>, n: string)
    requires n in Shorts(packages)
    ensures exists p :: p in packages && p.short == n
  {
    if packages[0].short != n {
      ShortIsListed(packages[1..], n);
      assert forall p :: p in packages[1..] ==> p in packages;
    }
  }

  lemma {:induction false} ShortsConcat(a: seq<Package>, b: seq<Package>)
    ensures Shorts(a + b) == Shorts(a) + Shorts(b)
  {
    if a == [] {
      assert a + b == b;
    } else {
      assert (a + b)[1..] == a[1..] + b;
      ShortsConcat(a[1..], b);
    }
  }

  // Equal members have equal short names.
  lemma SameShorts(a: seq<Package>, b: seq<Package>)
    requires forall p :: p in a <==> p in b
    ensures Shorts(a) == Shorts(b)
  {
    forall n ensures n in Shorts(a) <==> n in Shorts(b) {
      if n in Shorts(a) {
        ShortIsListed(a, n);
        var p :| p in a && p.short == n;
        InShorts(b, p);
      }
      if n in Shorts(b) {
        ShortIsListed(b, n);
        var p :| p in b && p.short == n;
        InShorts(a, p);
      }
    }
  }

  // A package's layer is one more than the highest among its dependencies, or zero.
  ghost predicate Layered(layer: Layering, p: Package) {
    && p.short in layer
    && (forall d :: d in p.deps ==> d in layer && layer[d] < layer[p.short])
    && (layer[p.short] > 0 ==> exists d :: d in p.deps && d in layer && layer[d] == layer[p.short] - 1)
  }

  ghost predicate IsLayering(packages: seq<Package>, layer: Layering) {
    && (forall p :: p in packages ==> Layered(layer, p))
    && layer.Keys == Shorts(packages)
  }

  ghost predicate UniqueShorts(packages: seq<Package>) {
    forall i, j :: 0 <= i < j < |packages| ==> packages[i].short != packages[j].short
  }

  // Ordered by layer, and inside a layer by comparePackages.
  ghost predicate LayerOrdered(layer: Layering, leq: (Package, Package) -> bool, a: Package, b: Package) {
    && a.short in layer && b.short in layer
    && (layer[a.short] < layer[b.short] || (layer[a.short] == layer[b.short] && leq(a, b)))
  }

  ghost predicate InLayerOrder(layer: Layering, leq: (Package, Package) -> bool, out: seq<Package>) {
    forall i, j :: 0 <= i < j < |out| ==> LayerOrdered(layer, leq, out[i], out[j])
  }

  // ---- The sort ----

  // The entries of the map from short names: a repeated name keeps its first place and takes
  // its last package.
  function ByShort(packages: seq<Package>): (entries: seq<Package>)
  {
    if packages == [] then []
    else
      var entries, p := ByShort(packages[..|packages| - 1]), packages[|packages| - 1];
      PutEntry(entries, p)
  }

  function PutEntry(entries: seq<Package>, p: Package): (r: seq<Package>)
    ensures (forall e :: e in entries ==> e.short != p.short) ==> r == entries + [p]
  {
    if entries == [] then [p]
    else if entries[0].short == p.short then [p] + entries[1..]
    else
      assert entries == [entries[0]] + entries[1..];
      [entries[0]] + PutEntry(entries[1..], p)
  }

  lemma NextEntry(front: seq<Package>, last: Package)
    ensures ByShort(front + [last]) == PutEntry(ByShort(front), last)
  {
    assert (front + [last])[..|front|] == front;
  }

  lemma {:induction false} UniqueEntries(packages: seq<Package>)
    requires UniqueShorts(packages)
    ensures ByShort(packages) == packages
  {
    if packages != [] {
      var front, last := packages[..|packages| - 1], packages[|packages| - 1];
      UniqueEntries(front);
      assert packages == front + [last];
      NextEntry(front, last);
      assert forall e :: e in front ==> e.short != last.short;
    }
  }

  predicate IsReady(placed: set<string>, p: Package) {
    forall d :: d in p.deps ==> d in placed
  }

  function ReadyOf(placed: set<string>, remaining: seq<Package>): (r: seq<Package>)
    ensures forall p :: p in r <==> p in remaining && IsReady(placed, p)
  {
    if remaining == [] then []
    else (if IsReady(placed, remaining[0]) then [remaining[0]] else []) + ReadyOf(placed, remaining[1..])
  }

  function NotReadyOf(placed: set<string>, remaining: seq<Package>): (r: seq<Package>)
    ensures forall p :: p in r <==> p in remaining && !IsReady(placed, p)
    ensures multiset(r) + multiset(ReadyOf(placed, remaining)) == multiset(remaining)
  {
    if remaining == [] then []
    else
      assert remaining == [remaining[0]] + remaining[1..];
      (if IsReady(placed, remaining[0]) then [] else [remaining[0]]) + NotReadyOf(placed, remaining[1..])
  }
}
