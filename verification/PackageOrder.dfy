// Which of two packages stands first, in terms of the dependencies, the listed groups and the
// collation alone.
module PackageOrder {
  import opened Sorting
  import opened PackageGraph
  import opened PackageSort
  import opened PackageTies

  // ---- What the comparison means ----

  ghost predicate FirstAt(names: seq<string>, name: string, i: int) {
    0 <= i < |names| && names[i] == name && forall j :: 0 <= j < i ==> names[j] != name
  }

  // The group is listed earlier, or only it is listed.
  ghost predicate GroupComesFirst(groupOrder: seq<string>, a: string, b: string) {
    || (a in groupOrder && b !in groupOrder)
    || exists i, j :: FirstAt(groupOrder, a, i) && FirstAt(groupOrder, b, j) && i < j
  }

  // The groups list neither of two packages before the other.
  ghost predicate GroupsLevel(groupOrder: seq<string>, a: string, b: string) {
    a == b || (a !in groupOrder && b !in groupOrder)
  }

  // The group decides, then the collation of the groups, then that of the short names.
  ghost predicate RanksFirst(groupOrder: seq<string>, collate: Collation, p: Package, q: Package) {
    || GroupComesFirst(groupOrder, p.group, q.group)
    || (&& GroupsLevel(groupOrder, p.group, q.group)
        && (|| collate(p.group, q.group) < 0
            || (collate(p.group, q.group) == 0 && collate(p.short, q.short) < 0)))
  }

  lemma {:induction false} IndexIsFirst(names: seq<string>, name: string)
    ensures IndexOf(names, name) == -1 <==> name !in names
    ensures name in names ==> FirstAt(names, name, IndexOf(names, name))
  {
    if names != [] && names[0] != name {
      var rest := names[1..];
      IndexIsFirst(rest, name);
      assert name in names <==> name in rest;
      if name in rest {
        var i := IndexOf(rest, name);
        forall j | 0 <= j < i + 1 ensures names[j] != name {
          if j > 0 { assert names[j] == rest[j - 1]; }
        }
      }
    }
  }

  lemma FirstIsOne(names: seq<string>, name: string, i: int, j: int)
    requires FirstAt(names, name, i) && FirstAt(names, name, j)
    ensures i == j
  {
  }

  // A list has fewer than 2^32 elements, and an unlisted group ranks behind them all.
  lemma RankMeans(groupOrder: seq<string>, a: string, b: string)
    requires |groupOrder| < 0x1_0000_0000
    ensures GroupRank(groupOrder, a) < GroupRank(groupOrder, b) <==> GroupComesFirst(groupOrder, a, b)
    ensures GroupRank(groupOrder, a) == GroupRank(groupOrder, b) <==> GroupsLevel(groupOrder, a, b)
  {
    IndexIsFirst(groupOrder, a);
    IndexIsFirst(groupOrder, b);
    if i, j :| FirstAt(groupOrder, a, i) && FirstAt(groupOrder, b, j) && i < j {
      FirstIsOne(groupOrder, a, i, IndexOf(groupOrder, a));
      FirstIsOne(groupOrder, b, j, IndexOf(groupOrder, b));
    }
  }

  lemma ComparisonIff(groupOrder: seq<string>, collate: Collation, p: Package, q: Package)
    requires |groupOrder| < 0x1_0000_0000
    ensures ComparePackages(p, q, groupOrder, collate) < 0 <==> RanksFirst(groupOrder, collate, p, q)
  {
    RankMeans(groupOrder, p.group, q.group);
    RankMeans(groupOrder, q.group, p.group);
  }

  // ---- What the result means ----

  ghost predicate ShallowerThan(entries: seq<Package>, p: Package, q: Package)
    requires OneEach(entries)
  {
    exists j: nat, k: nat :: LongestPath(entries, p.short, j) && LongestPath(entries, q.short, k) && j < k
  }

  // The package with the shorter longest dependency path stands first, then the one that ranks
  // first, then the one given first.
  ghost predicate GoesFirst(entries: seq<Package>, groupOrder: seq<string>, collate: Collation, p: Package, q: Package)
    requires OneEach(entries)
  {
    || ShallowerThan(entries, p, q)
    || (&& !ShallowerThan(entries, q, p)
        && (|| RanksFirst(groupOrder, collate, p, q)
            || (!RanksFirst(groupOrder, collate, q, p) && ComesBefore(entries, p, q))))
  }

  lemma ShallowerMeans(entries: seq<Package>, layer: Layering, p: Package, q: Package)
    requires OneEach(entries) && IsLayering(entries, layer) && p in entries && q in entries
    ensures p.short in layer && q.short in layer
    ensures ShallowerThan(entries, p, q) <==> layer[p.short] < layer[q.short]
  {
    InShorts(entries, p);
    InShorts(entries, q);
    LayerIsLongestPath(entries, layer, p.short, layer[p.short]);
    LayerIsLongestPath(entries, layer, q.short, layer[q.short]);
    forall j: nat, k: nat | LongestPath(entries, p.short, j) && LongestPath(entries, q.short, k)
      ensures j == layer[p.short] && k == layer[q.short]
    {
      LayerIsLongestPath(entries, layer, p.short, j);
      LayerIsLongestPath(entries, layer, q.short, k);
    }
  }

  // What goes first is ordered before what does not: the order is total.
  lemma GoesFirstIsOrdered(entries: seq<Package>, layer: Layering, groupOrder: seq<string>, collate: Collation,
                           p: Package, q: Package)
    requires IsCollation(collate) && |groupOrder| < 0x1_0000_0000 && OneEach(entries) && IsLayering(entries, layer)
    requires p in entries && q in entries && p != q
    ensures var order := Stably(Precedes(groupOrder, collate), Before(entries));
      GoesFirst(entries, groupOrder, collate, p, q) <==> !LayerOrdered(layer, order, q, p)
  {
    ShallowerMeans(entries, layer, p, q);
    ShallowerMeans(entries, layer, q, p);
    ComparisonIff(groupOrder, collate, p, q);
    ComparisonIff(groupOrder, collate, q, p);
    MutualIsTie(groupOrder, collate, p, q);
    PrecedesIsPreorder(groupOrder, collate);
    EitherComesBefore(entries, p, q);
  }

  lemma EitherComesBefore(packages: seq<Package>, p: Package, q: Package)
    requires OneEach(packages) && p in packages && q in packages && p != q
    ensures ComesBefore(packages, p, q) <==> !ComesBefore(packages, q, p)
  {
    var i :| 0 <= i < |packages| && packages[i] == p;
    var j :| 0 <= j < |packages| && packages[j] == q;
    if i < j {
      assert ComesBefore(packages, p, q);
      BeforeIsOneWay(packages, p, q);
    } else {
      assert ComesBefore(packages, q, p);
      BeforeIsOneWay(packages, q, p);
    }
  }

  // Every result has the packages exactly in this order.
  lemma BeforeIff(entries: seq<Package>, groupOrder: seq<string>, collate: Collation, out: seq<Package>, p: Package,
                  q: Package)
    requires IsCollation(collate) && |groupOrder| < 0x1_0000_0000 && OneEach(entries)
    requires IsResult(entries, Precedes(groupOrder, collate), out) && p in entries && q in entries && p != q
    ensures multiset(out) == multiset(entries)
    ensures ComesBefore(out, p, q) <==> GoesFirst(entries, groupOrder, collate, p, q)
  {
    var leq := Precedes(groupOrder, collate);
    var layer :| IsLayering(entries, layer) && IsOrder(entries, layer, leq, out);
    SameMembers(out, entries);
    EitherComesBefore(out, p, q);
    GoesFirstIsOrdered(entries, layer, groupOrder, collate, p, q);
    GoesFirstIsOrdered(entries, layer, groupOrder, collate, q, p);
    OrderedOneWay(layer, Stably(leq, Before(entries)), out, p, q);
    OrderedOneWay(layer, Stably(leq, Before(entries)), out, q, p);
  }

  lemma OrderedOneWay(layer: Layering, order: (Package, Package) -> bool, out: seq<Package>, p: Package, q: Package)
    requires InLayerOrder(layer, order, out)
    ensures ComesBefore(out, p, q) ==> LayerOrdered(layer, order, p, q)
  {
  }

  // ---- Repeated short names ----

  ghost predicate IsNamed(packages: seq<Package>, name: string) {
    exists i :: 0 <= i < |packages| && packages[i].short == name
  }

  // The first name occurs before the other one does.
  ghost predicate NamedBefore(packages: seq<Package>, a: string, b: string) {
    exists i :: NamedBeforeAt(packages, a, b, i)
  }

  ghost predicate NamedBeforeAt(packages: seq<Package>, a: string, b: string, i: int) {
    0 <= i < |packages| && packages[i].short == a && forall j :: 0 <= j <= i ==> packages[j].short != b
  }

  lemma NamedBeforeGrows(front: seq<Package>, last: Package, a: string, b: string)
    ensures NamedBefore(front + [last], a, b)
       <==> NamedBefore(front, a, b) || (last.short == a && a != b && !IsNamed(front, b))
  {
    var all := front + [last];
    if i :| NamedBeforeAt(front, a, b, i) { assert NamedBeforeAt(all, a, b, i); }
    if last.short == a && a != b && !IsNamed(front, b) { assert NamedBeforeAt(all, a, b, |front|); }
    if i :| NamedBeforeAt(all, a, b, i) {
      if i < |front| {
        assert forall j :: 0 <= j <= i ==> front[j] == all[j];
        assert NamedBeforeAt(front, a, b, i);
      } else {
        assert forall j :: 0 <= j < |front| ==> front[j] == all[j];
      }
    }
  }

  lemma SameNamesSameOrder(x: seq<Package>, y: seq<Package>, a: string, b: string)
    requires |x| == |y| && forall i :: 0 <= i < |x| ==> x[i].short == y[i].short
    ensures NamedBefore(x, a, b) ==> NamedBefore(y, a, b)
    ensures IsNamed(x, a) ==> IsNamed(y, a)
  {
    if i :| NamedBeforeAt(x, a, b, i) { assert NamedBeforeAt(y, a, b, i); }
    if i :| 0 <= i < |x| && x[i].short == a { assert y[i].short == a; }
  }

  lemma NamedGrows(front: seq<Package>, last: Package, a: string)
    ensures IsNamed(front + [last], a) <==> IsNamed(front, a) || last.short == a
  {
    var all := front + [last];
    assert all[|front|] == last;
    if i :| 0 <= i < |front| && front[i].short == a { assert all[i].short == a; }
  }

  // A further package neither moves a name nor, if the name is not new, adds one.
  lemma PutKeepsOrder(entries: seq<Package>, p: Package, a: string, b: string)
    ensures IsNamed(PutEntry(entries, p), a) <==> IsNamed(entries, a) || p.short == a
    ensures NamedBefore(PutEntry(entries, p), a, b)
       <==> NamedBefore(entries, a, b) || (p.short == a && a != b && !IsNamed(entries, a) && !IsNamed(entries, b))
  {
    var k := PutShape(entries, p);
    var after := PutEntry(entries, p);
    if k < |entries| {
      assert IsNamed(entries, p.short);
      SameNamesSameOrder(entries, after, a, b);
      SameNamesSameOrder(after, entries, a, b);
    } else {
      NamedBeforeGrows(entries, p, a, b);
      NamedGrows(entries, p, a);
    }
  }

  // The entries of the map stand in the order in which their names are first given.
  lemma {:induction false} EntriesKeepFirstPlace(packages: seq<Package>, a: string, b: string)
    ensures IsNamed(ByShort(packages), a) <==> IsNamed(packages, a)
    ensures IsNamed(packages, a) && IsNamed(packages, b) ==>
              (NamedBefore(ByShort(packages), a, b) <==> NamedBefore(packages, a, b))
  {
    if packages != [] {
      var front, last := packages[..|packages| - 1], packages[|packages| - 1];
      assert packages == front + [last];
      EntriesKeepFirstPlace(front, a, b);
      EntriesKeepFirstPlace(front, b, a);
      NextEntry(front, last);
      PutKeepsOrder(ByShort(front), last, a, b);
      NamedGrows(front, last, a);
      NamedGrows(front, last, b);
      NamedBeforeGrows(front, last, a, b);
      NamedAlone(front, a, b);
      NamedAlone(ByShort(front), a, b);
    }
  }

  lemma NamedAlone(packages: seq<Package>, a: string, b: string)
    ensures IsNamed(packages, a) && !IsNamed(packages, b) ==> NamedBefore(packages, a, b)
    ensures NamedBefore(packages, a, b) ==> IsNamed(packages, a)
  {
    if IsNamed(packages, a) && !IsNamed(packages, b) {
      var i :| 0 <= i < |packages| && packages[i].short == a;
      assert NamedBeforeAt(packages, a, b, i);
    }
  }
}
