// Finite directed graphs given by adjacency lists, as the gate scheduler, the package
// sorter, the export search and the project-reference check all traverse them.
module Digraphs {
  // Each known node with its adjacent nodes. An adjacent node need not itself be known.
  type Graph<T(==)> = map<T, seq<T>>

  ghost predicate IsEdge<T>(g: Graph<T>, a: T, b: T) {
    a in g && b in g[a]
  }

  ghost predicate EdgeAt<T>(g: Graph<T>, p: seq<T>, i: nat) {
    i + 1 < |p| && IsEdge(g, p[i], p[i + 1])
  }

  ghost predicate IsWalk<T>(g: Graph<T>, p: seq<T>) {
    |p| > 0 && forall i: nat :: i + 1 < |p| ==> EdgeAt(g, p, i)
  }

  ghost predicate IsCycle<T>(g: Graph<T>, p: seq<T>) {
    |p| > 1 && p[0] == p[|p| - 1] && IsWalk(g, p)
  }

  ghost predicate Acyclic<T(!new)>(g: Graph<T>) {
    forall p: seq<T> :: !IsCycle(g, p)
  }

  ghost predicate Reaches<T(!new)>(g: Graph<T>, a: T, b: T) {
    exists p: seq<T> :: IsWalk(g, p) && p[0] == a && p[|p| - 1] == b
  }

  lemma FirstIsMember<T>(s: seq<T>)
    ensures s != [] ==> s[0] in s
  {
  }

  ghost predicate Distinct<T>(p: seq<T>) {
    forall i, j :: 0 <= i < j < |p| ==> p[i] != p[j]
  }

  // A rank falls along every edge between known nodes.
  ghost predicate IsRank<T(!new)>(g: Graph<T>, rank: map<T, nat>) {
    && g.Keys == rank.Keys
    && forall a, b :: IsEdge(g, a, b) && b in g ==> rank[b] < rank[a]
  }

  lemma {:induction false} DistinctFits<T>(p: seq<T>, s: set<T>)
    requires Distinct(p)
    requires forall x :: x in p ==> x in s
    ensures |p| <= |s|
  {
    if |p| > 0 {
      var last := p[|p| - 1];
      DistinctFits(p[..|p| - 1], s - {last});
    }
  }

  // Prepending an edge to a walk.
  lemma WalkCons<T>(g: Graph<T>, a: T, p: seq<T>)
    requires IsWalk(g, p) && IsEdge(g, a, p[0])
    ensures IsWalk(g, [a] + p)
  {
    var q := [a] + p;
    forall i: nat | i + 1 < |q|
      ensures EdgeAt(g, q, i)
    {
      if i > 0 { assert EdgeAt(g, p, i - 1); }
    }
  }

  // Extending a walk by an edge.
  lemma WalkSnoc<T>(g: Graph<T>, p: seq<T>, b: T)
    requires IsWalk(g, p) && IsEdge(g, p[|p| - 1], b)
    ensures IsWalk(g, p + [b])
  {
    var q := p + [b];
    forall i: nat | i + 1 < |q|
      ensures EdgeAt(g, q, i)
    {
      if i + 1 < |p| { assert EdgeAt(g, p, i); }
    }
  }

  lemma ReachesStep<T(!new)>(g: Graph<T>, a: T, b: T, c: T)
    requires Reaches(g, a, b) && IsEdge(g, b, c)
    ensures Reaches(g, a, c)
  {
    var p :| IsWalk(g, p) && p[0] == a && p[|p| - 1] == b;
    WalkSnoc(g, p, c);
    var q := p + [c];
    assert q[0] == a && q[|q| - 1] == c;
  }

  lemma ReachesSelf<T(!new)>(g: Graph<T>, a: T)
    ensures Reaches(g, a, a)
  {
    assert IsWalk(g, [a]);
  }

  lemma ReachesJoin<T(!new)>(g: Graph<T>, a: T, b: T, c: T)
    requires Reaches(g, a, b) && Reaches(g, b, c)
    ensures Reaches(g, a, c)
  {
    var p :| IsWalk(g, p) && p[0] == a && p[|p| - 1] == b;
    var q :| IsWalk(g, q) && q[0] == b && q[|q| - 1] == c;
    var r := p + q[1..];
    forall i: nat | i + 1 < |r|
      ensures EdgeAt(g, r, i)
    {
      if i + 1 < |p| {
        assert EdgeAt(g, p, i);
      } else {
        assert EdgeAt(g, q, i + 1 - |p|);
      }
    }
    assert r[|r| - 1] == c;
  }

  // A set closed under edges keeps every walk that starts in it.
  lemma {:induction false} ClosedKeepsWalk<T(!new)>(g: Graph<T>, s: set<T>, p: seq<T>)
    requires forall a, b :: a in s && IsEdge(g, a, b) ==> b in s
    requires IsWalk(g, p) && p[0] in s
    ensures p[|p| - 1] in s
  {
    if |p| > 1 {
      var q := p[..|p| - 1];
      forall i: nat | i + 1 < |q|
        ensures EdgeAt(g, q, i)
      {
        assert EdgeAt(g, p, i);
      }
      ClosedKeepsWalk(g, s, q);
      assert EdgeAt(g, p, |p| - 2);
    }
  }

  // Some edge from a leads back into s.
  ghost predicate Continues<T>(g: Graph<T>, s: set<T>, a: T) {
    a in g && exists b :: b in g[a] && b in s
  }

  ghost predicate HasCycle<T(!new)>(g: Graph<T>) {
    exists c: seq<T> :: IsCycle(g, c)
  }

  // A walk that comes back to one of its own nodes ends in a cycle.
  lemma ReturningWalkCycles<T(!new)>(g: Graph<T>, p: seq<T>, k: nat)
    requires k < |p| - 1 && IsWalk(g, p) && p[k] == p[|p| - 1]
    ensures IsCycle(g, p[k..])
  {
    var c := p[k..];
    forall i: nat | i + 1 < |c|
      ensures EdgeAt(g, c, i)
    {
      assert EdgeAt(g, p, k + i);
    }
  }

  // A walk inside a finite set that can always be continued must return to itself.
  lemma {:induction false} EndlessWalkCycles<T(!new)>(g: Graph<T>, s: set<T>, p: seq<T>)
    requires forall a :: a in s ==> Continues(g, s, a)
    requires IsWalk(g, p) && Distinct(p)
    requires forall x :: x in p ==> x in s
    ensures HasCycle(g)
    decreases |s| - |p|
  {
    var last := p[|p| - 1];
    assert Continues(g, s, last);
    var b :| b in g[last] && b in s;
    WalkSnoc(g, p, b);
    var q := p + [b];
    if b in p {
      var k :| 0 <= k < |p| && p[k] == b;
      ReturningWalkCycles(g, q, k);
    } else {
      DistinctFits(q, s);
      EndlessWalkCycles(g, s, q);
    }
  }

  // In an acyclic graph every non-empty set of known nodes has one with no edge back into the set.
  lemma AcyclicHasSink<T(!new)>(g: Graph<T>, s: set<T>)
    requires Acyclic(g) && s != {} && s <= g.Keys
    ensures exists a :: a in s && !Continues(g, s, a)
  {
    if forall a :: a in s ==> Continues(g, s, a) {
      var a :| a in s;
      assert IsWalk(g, [a]);
      EndlessWalkCycles(g, s, [a]);
      assert false;
    }
  }

  // A rank of some nodes that are closed under edges to known nodes.
  ghost predicate PartialRank<T(!new)>(g: Graph<T>, rank: map<T, nat>) {
    && rank.Keys <= g.Keys
    && (forall a, b :: a in rank && IsEdge(g, a, b) && b in g ==> b in rank && rank[b] < rank[a])
    && (forall a :: a in rank ==> rank[a] < |rank|)
  }

  lemma RankSnoc<T(!new)>(g: Graph<T>, rank: map<T, nat>, a: T)
    requires PartialRank(g, rank) && a in g && a !in rank
    requires forall b :: b in g[a] && b in g ==> b in rank
    ensures PartialRank(g, rank[a := |rank|])
  {
  }

  lemma {:induction false} ExtendRank<T(!new)>(g: Graph<T>, rank: map<T, nat>)
    requires Acyclic(g) && PartialRank(g, rank)
    ensures exists r: map<T, nat> :: IsRank(g, r)
    decreases |g.Keys - rank.Keys|
  {
    if rank.Keys == g.Keys {
      assert IsRank(g, rank);
    } else {
      var s := g.Keys - rank.Keys;
      assert !(g.Keys <= rank.Keys);
      var known :| known in g.Keys && known !in rank.Keys;
      assert known in s;
      AcyclicHasSink(g, s);
      var a :| a in s && !Continues(g, s, a);
      assert g.Keys - rank[a := |rank|].Keys == s - {a};
      RankSnoc(g, rank, a);
      ExtendRank(g, rank[a := |rank|]);
    }
  }

  lemma {:induction false} RankFallsAlongWalk<T(!new)>(g: Graph<T>, rank: map<T, nat>, p: seq<T>)
    requires IsRank(g, rank) && IsWalk(g, p) && |p| > 1 && p[|p| - 1] in g
    ensures p[0] in g && rank[p[|p| - 1]] < rank[p[0]]
  {
    assert EdgeAt(g, p, 0);
    if |p| > 2 {
      var q := p[1..];
      forall i: nat | i + 1 < |q|
        ensures EdgeAt(g, q, i)
      {
        assert EdgeAt(g, p, i + 1);
      }
      RankFallsAlongWalk(g, rank, q);
    }
  }

  // Having no cycle and having a rank are the same thing.
  lemma AcyclicIffRanked<T(!new)>(g: Graph<T>)
    ensures Acyclic(g) <==> exists rank: map<T, nat> :: IsRank(g, rank)
  {
    if Acyclic(g) {
      ExtendRank(g, map[]);
    }
    if rank: map<T, nat> :| IsRank(g, rank) {
      forall p: seq<T>
        ensures !IsCycle(g, p)
      {
        if IsCycle(g, p) {
          assert EdgeAt(g, p, 0);
          RankFallsAlongWalk(g, rank, p);
        }
      }
    }
  }

  ghost function RankOf<T(!new)>(g: Graph<T>): (rank: map<T, nat>)
    requires Acyclic(g)
    ensures IsRank(g, rank)
  {
    AcyclicIffRanked(g);
    var rank :| IsRank(g, rank);
    rank
  }
}
