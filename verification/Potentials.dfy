// Graphs whose edges grow or shrink a length: a potential rises along every edge by at least its
// growth, and there is one exactly if no cycle grows.
module Potentials {
  import opened Digraphs

  datatype Hop<T> = Hop(source: T, target: T, growth: int)

  type Edges<!T> = (T, T, int) -> bool

  ghost predicate IsHop<T>(e: Edges<T>, vs: set<T>, h: Hop<T>) {
    h.source in vs && h.target in vs && e(h.source, h.target, h.growth)
  }

  ghost predicate IsTrail<T>(e: Edges<T>, vs: set<T>, t: seq<Hop<T>>) {
    && (forall i :: 0 <= i < |t| ==> IsHop(e, vs, t[i]))
    && (forall i :: 0 < i < |t| ==> t[i - 1].target == t[i].source)
  }

  ghost function Growth<T>(t: seq<Hop<T>>): int {
    if t == [] then 0 else Growth(t[..|t| - 1]) + t[|t| - 1].growth
  }

  ghost predicate EndsAt<T>(t: seq<Hop<T>>, v: T) {
    t != [] ==> t[|t| - 1].target == v
  }

  ghost predicate IsRound<T>(e: Edges<T>, vs: set<T>, t: seq<Hop<T>>) {
    IsTrail(e, vs, t) && t != [] && t[0].source == t[|t| - 1].target
  }

  // No trail from a node back to itself grows.
  ghost predicate NoPositiveCycle<T(!new)>(e: Edges<T>, vs: set<T>) {
    forall t :: IsRound(e, vs, t) ==> Growth(t) <= 0
  }

  type Potential<T> = map<T, nat>

  ghost predicate IsPotential<T(!new)>(e: Edges<T>, vs: set<T>, pot: Potential<T>) {
    pot.Keys == vs && forall a, b, g: int :: IsHop(e, vs, Hop(a, b, g)) ==> pot[a] + g <= pot[b]
  }

  // ---- A potential leaves no positive cycle ----

  lemma {:induction false} TrailWithinPotential<T(!new)>(e: Edges<T>, vs: set<T>, pot: Potential<T>, t: seq<Hop<T>>)
    requires IsPotential(e, vs, pot) && IsTrail(e, vs, t) && t != []
    ensures t[0].source in pot && t[|t| - 1].target in pot
    ensures pot[t[0].source] + Growth(t) <= pot[t[|t| - 1].target]
  {
    var last := t[|t| - 1];
    assert IsHop(e, vs, last) && last == Hop(last.source, last.target, last.growth);
    assert IsHop(e, vs, t[0]);
    if |t| > 1 {
      TrailWithinPotential(e, vs, pot, t[..|t| - 1]);
    }
  }

  // ---- Trails that grow no further than a bound ----

  lemma {:induction false} GrowthConcat<T>(a: seq<Hop<T>>, b: seq<Hop<T>>)
    ensures Growth(a + b) == Growth(a) + Growth(b)
  {
    if b == [] {
      assert a + b == a;
    } else {
      assert (a + b)[..|a + b| - 1] == a + b[..|b| - 1];
      GrowthConcat(a, b[..|b| - 1]);
    }
  }

  lemma {:induction false} ShortGrowth<T>(t: seq<Hop<T>>, most: nat)
    requires forall i :: 0 <= i < |t| ==> t[i].growth <= most
    ensures Growth(t) <= Times(most, |t|)
  {
    if t != [] { ShortGrowth(t[..|t| - 1], most); }
  }

  ghost function Times(a: nat, b: nat): nat {
    if b == 0 then 0 else Times(a, b - 1) + a
  }

  lemma {:induction false} TimesGrows(most: nat, a: nat, b: nat)
    requires a <= b
    ensures Times(most, a) <= Times(most, b)
  {
    if a < b { TimesGrows(most, a, b - 1); }
  }

  // A node left twice: what lies between is a round, and cutting it out does not lower the growth.
  lemma CutRound<T(!new)>(e: Edges<T>, vs: set<T>, t: seq<Hop<T>>, i: nat, j: nat)
    requires NoPositiveCycle(e, vs) && IsTrail(e, vs, t) && i < j < |t| && t[i].source == t[j].source
    ensures IsTrail(e, vs, t[..i] + t[j..]) && Growth(t) <= Growth(t[..i] + t[j..])
  {
    RoundBetween(e, vs, t, i, j);
    CutGrowth(t, i, j);
    CutIsTrail(e, vs, t, i, j);
  }

  lemma RoundBetween<T>(e: Edges<T>, vs: set<T>, t: seq<Hop<T>>, i: nat, j: nat)
    requires IsTrail(e, vs, t) && i < j < |t| && t[i].source == t[j].source
    ensures IsRound(e, vs, t[i..j])
  {
    assert t[j - 1].target == t[j].source;
  }

  lemma CutGrowth<T>(t: seq<Hop<T>>, i: nat, j: nat)
    requires i < j < |t|
    ensures Growth(t) == Growth(t[..i] + t[j..]) + Growth(t[i..j])
  {
    assert t == (t[..i] + t[i..j]) + t[j..];
    GrowthConcat(t[..i] + t[i..j], t[j..]);
    GrowthConcat(t[..i], t[i..j]);
    GrowthConcat(t[..i], t[j..]);
  }

  lemma CutIsTrail<T>(e: Edges<T>, vs: set<T>, t: seq<Hop<T>>, i: nat, j: nat)
    requires IsTrail(e, vs, t) && i < j < |t| && t[i].source == t[j].source
    ensures IsTrail(e, vs, t[..i] + t[j..])
  {
    var cut := t[..i] + t[j..];
    forall k | 0 <= k < |cut| ensures IsHop(e, vs, cut[k]) {
      assert cut[k] == if k < i then t[k] else t[k + (j - i)];
    }
    forall k | 0 < k < |cut| ensures cut[k - 1].target == cut[k].source {
      assert cut[k] == (if k < i then t[k] else t[k + (j - i)]);
      assert cut[k - 1] == (if k - 1 < i then t[k - 1] else t[k - 1 + (j - i)]);
    }
  }

  lemma {:induction false} GrowthIsBounded<T(!new)>(e: Edges<T>, vs: set<T>, most: nat, t: seq<Hop<T>>)
    requires NoPositiveCycle(e, vs) && IsTrail(e, vs, t)
    requires forall h :: IsHop(e, vs, h) ==> h.growth <= most
    ensures Growth(t) <= Times(most, |vs|)
    decreases |t|
  {
    var sources := seq(|t|, k requires 0 <= k < |t| => t[k].source);
    if i: nat, j: nat :| i < j < |t| && sources[i] == sources[j] {
      CutRound(e, vs, t, i, j);
      GrowthIsBounded(e, vs, most, t[..i] + t[j..]);
    } else {
      forall x | x in sources ensures x in vs {
        var k :| 0 <= k < |t| && sources[k] == x;
        assert IsHop(e, vs, t[k]);
      }
      DistinctFits(sources, vs);
      ShortGrowth(t, most);
      TimesGrows(most, |t|, |vs|);
    }
  }

  // ---- The greatest growth of a trail to a node ----

  ghost predicate IsTrailTo<T>(e: Edges<T>, vs: set<T>, t: seq<Hop<T>>, v: T) {
    IsTrail(e, vs, t) && EndsAt(t, v)
  }

  ghost predicate IsBest<T(!new)>(e: Edges<T>, vs: set<T>, v: T, best: nat) {
    && (exists t :: IsTrailTo(e, vs, t, v) && Growth(t) == best)
    && (forall t :: IsTrailTo(e, vs, t, v) ==> Growth(t) <= best)
  }

  lemma {:induction false} BestBelow<T(!new)>(e: Edges<T>, vs: set<T>, v: T, bound: nat) returns (best: nat)
    requires forall t :: IsTrailTo(e, vs, t, v) ==> Growth(t) <= bound
    ensures IsBest(e, vs, v, best)
  {
    if bound == 0 {
      assert IsTrailTo(e, vs, [], v) && Growth<T>([]) == 0;
      best := 0;
    } else if exists t :: IsTrailTo(e, vs, t, v) && Growth(t) == bound {
      best := bound;
    } else {
      best := BestBelow(e, vs, v, bound - 1);
    }
  }

  lemma BestGrows<T(!new)>(e: Edges<T>, vs: set<T>, h: Hop<T>, a: nat, b: nat)
    requires IsHop(e, vs, h) && IsBest(e, vs, h.source, a) && IsBest(e, vs, h.target, b)
    ensures a + h.growth <= b
  {
    var t :| IsTrailTo(e, vs, t, h.source) && Growth(t) == a;
    assert (t + [h])[..|t|] == t;
    assert IsTrailTo(e, vs, t + [h], h.target);
  }

  // One entry after the other.
  lemma {:induction false} BestOfAll<T(!new)>(e: Edges<T>, vs: set<T>, some: set<T>, bound: nat)
    returns (pot: Potential<T>)
    requires forall t :: IsTrail(e, vs, t) ==> Growth(t) <= bound
    ensures pot.Keys == some && forall v :: v in some ==> IsBest(e, vs, v, pot[v])
    decreases some
  {
    pot := map[];
    if some != {} {
      var v :| v in some;
      var rest := BestOfAll(e, vs, some - {v}, bound);
      var best := BestBelow(e, vs, v, bound);
      pot := rest[v := best];
    }
  }

  // There is a potential exactly if there is no positive cycle.
  lemma PotentialIff<T(!new)>(e: Edges<T>, vs: set<T>, most: nat)
    requires forall h :: IsHop(e, vs, h) ==> h.growth <= most
    ensures NoPositiveCycle(e, vs) <==> exists pot :: IsPotential(e, vs, pot)
  {
    if NoPositiveCycle(e, vs) {
      forall t | IsTrail(e, vs, t) ensures Growth(t) <= Times(most, |vs|) {
        GrowthIsBounded(e, vs, most, t);
      }
      var pot := BestOfAll(e, vs, vs, Times(most, |vs|));
      forall a, b, g: int | IsHop(e, vs, Hop(a, b, g)) ensures pot[a] + g <= pot[b] {
        BestGrows(e, vs, Hop(a, b, g), pot[a], pot[b]);
      }
      assert IsPotential(e, vs, pot);
    }
    if pot :| IsPotential(e, vs, pot) { PotentialForbids(e, vs, pot); }
  }

  lemma PotentialForbids<T(!new)>(e: Edges<T>, vs: set<T>, pot: Potential<T>)
    requires IsPotential(e, vs, pot)
    ensures NoPositiveCycle(e, vs)
  {
    forall t | IsRound(e, vs, t) ensures Growth(t) <= 0 {
      TrailWithinPotential(e, vs, pot, t);
    }
  }
}
