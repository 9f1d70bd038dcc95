// The contract of the built-in array sort: a stable permutation in the comparator's order.
module Sorting {
  ghost predicate TotalPreorder<T(!new)>(leq: (T, T) -> bool) {
    && (forall a, b :: leq(a, b) || leq(b, a))
    && (forall a, b, c :: leq(a, b) && leq(b, c) ==> leq(a, c))
  }

  ghost predicate Sorted<T>(leq: (T, T) -> bool, s: seq<T>) {
    forall i, j :: 0 <= i < j < |s| ==> leq(s[i], s[j])
  }

  function Insert<T>(leq: (T, T) -> bool, x: T, s: seq<T>): (r: seq<T>)
    ensures multiset(r) == multiset(s) + multiset{x}
  {
    if s == [] || leq(x, s[0]) then
      [x] + s
    else
      assert s == [s[0]] + s[1..];
      [s[0]] + Insert(leq, x, s[1..])
  }

  function Sort<T>(leq: (T, T) -> bool, s: seq<T>): (r: seq<T>)
    ensures multiset(r) == multiset(s)
  {
    if s == [] then []
    else
      assert s == [s[0]] + s[1..];
      Insert(leq, s[0], Sort(leq, s[1..]))
  }

  // In the given order, except that elements ranked equal stand as `before` has them.
  function Stably<T>(leq: (T, T) -> bool, before: (T, T) -> bool): (T, T) -> bool {
    (a, b) => leq(a, b) && (leq(b, a) ==> before(a, b))
  }

  // Elements that rank equal keep the order in which they were given.
  lemma {:induction false} SortIsStable<T(!new)>(leq: (T, T) -> bool, before: (T, T) -> bool, s: seq<T>)
    requires TotalPreorder(leq) && Sorted(before, s)
    ensures Sorted(Stably(leq, before), Sort(leq, s))
  {
    if s != [] {
      SortIsStable(leq, before, s[1..]);
      SortKeepsMembers(leq, s[1..]);
      assert s == [s[0]] + s[1..];
      forall y | y in Sort(leq, s[1..]) ensures before(s[0], y) {
        var k :| 0 <= k < |s[1..]| && s[1..][k] == y;
        assert before(s[0], s[k + 1]);
      }
      InsertIsStable(leq, before, s[0], Sort(leq, s[1..]));
    }
  }

  lemma {:induction false} InsertIsStable<T(!new)>(leq: (T, T) -> bool, before: (T, T) -> bool, x: T, s: seq<T>)
    requires TotalPreorder(leq) && Sorted(Stably(leq, before), s) && forall y :: y in s ==> before(x, y)
    ensures Sorted(Stably(leq, before), Insert(leq, x, s))
  {
    var order := Stably(leq, before);
    if s != [] && !leq(x, s[0]) {
      var tail := Insert(leq, x, s[1..]);
      assert Sorted(order, s[1..]);
      InsertIsStable(leq, before, x, s[1..]);
      InsertMembers(leq, x, s[1..]);
      forall y | y in tail ensures order(s[0], y) {
        if y != x {
          var k :| 0 <= k < |s[1..]| && s[1..][k] == y;
          assert order(s[0], s[k + 1]);
        }
      }
      SortedCons(order, s[0], tail);
    } else {
      forall y | y in s ensures order(x, y) {
        var k :| 0 <= k < |s| && s[k] == y;
        assert k == 0 || order(s[0], s[k]);
      }
      SortedCons(order, x, s);
    }
  }

  lemma InsertMembers<T>(leq: (T, T) -> bool, x: T, s: seq<T>)
    ensures forall y :: y in Insert(leq, x, s) <==> y == x || y in s
  {
    forall y ensures y in Insert(leq, x, s) <==> y == x || y in s {
      assert y in multiset(Insert(leq, x, s)) <==> y in multiset([x] + s);
    }
  }

  lemma SortedCons<T>(leq: (T, T) -> bool, x: T, s: seq<T>)
    requires Sorted(leq, s) && forall y :: y in s ==> leq(x, y)
    ensures Sorted(leq, [x] + s)
  {
  }

  lemma SortSorts<T(!new)>(leq: (T, T) -> bool, s: seq<T>)
    requires TotalPreorder(leq)
    ensures Sorted(leq, Sort(leq, s))
  {
    SortIsStable(leq, (a, b) => true, s);
  }

  lemma SortKeepsMembers<T>(leq: (T, T) -> bool, s: seq<T>)
    ensures |Sort(leq, s)| == |s| && forall x :: x in Sort(leq, s) <==> x in s
  {
    assert |multiset(Sort(leq, s))| == |multiset(s)|;
    forall x ensures x in Sort(leq, s) <==> x in s {
      assert x in multiset(Sort(leq, s)) <==> x in multiset(s);
    }
  }

  // Under an order without ties a sorted sequence is determined by its elements.
  lemma {:induction false} SortedIsUnique<T(!new)>(leq: (T, T) -> bool, a: seq<T>, b: seq<T>)
    requires multiset(a) == multiset(b) && Sorted(leq, a) && Sorted(leq, b)
    requires forall x, y :: x in a && y in a && leq(x, y) && leq(y, x) ==> x == y
    ensures a == b
  {
    assert |multiset(a)| == |multiset(b)|;
    if a != [] {
      HeadIsLeast(leq, a, b);
      TailMultiset(a);
      TailMultiset(b);
      SortedIsUnique(leq, a[1..], b[1..]);
      assert a == [a[0]] + a[1..] && b == [b[0]] + b[1..];
    }
  }

  lemma TailMultiset<T>(s: seq<T>)
    requires s != []
    ensures multiset(s[1..]) == multiset(s) - multiset{s[0]}
    ensures forall x :: x in s[1..] ==> x in s
  {
    assert s == [s[0]] + s[1..];
  }

  lemma HeadIsLeast<T(!new)>(leq: (T, T) -> bool, a: seq<T>, b: seq<T>)
    requires a != [] && b != [] && multiset(a) == multiset(b) && Sorted(leq, a) && Sorted(leq, b)
    requires forall x, y :: x in a && y in a && leq(x, y) && leq(y, x) ==> x == y
    ensures a[0] == b[0]
  {
    assert a[0] in multiset(b) && b[0] in multiset(a);
    var i :| 0 <= i < |b| && b[i] == a[0];
    var j :| 0 <= j < |a| && a[j] == b[0];
  }

  // Sorting keeps elements different from each other.
  lemma SortKeepsDistinct<T>(leq: (T, T) -> bool, s: seq<T>)
    requires forall i, j :: 0 <= i < j < |s| ==> s[i] != s[j]
    ensures |Sort(leq, s)| == |s|
    ensures forall i, j :: 0 <= i < j < |s| ==> Sort(leq, s)[i] != Sort(leq, s)[j]
  {
    var r := Sort(leq, s);
    SortKeepsMembers(leq, s);
    OnceEach(s);
    OnceCarries(s, r);
    OnceIsDistinct(r);
  }

  lemma OnceCarries<T>(s: seq<T>, r: seq<T>)
    requires multiset(r) == multiset(s) && forall x :: x in s ==> multiset(s)[x] == 1
    ensures forall x :: x in r ==> multiset(r)[x] == 1
  {
    forall x | x in r ensures multiset(r)[x] == 1 {
      assert x in multiset(s);
    }
  }

  lemma OnceIsDistinct<T>(s: seq<T>)
    requires forall x :: x in s ==> multiset(s)[x] == 1
    ensures forall i, j :: 0 <= i < j < |s| ==> s[i] != s[j]
  {
    forall i, j | 0 <= i < j < |s| ensures s[i] != s[j] {
      CountedTwice(s, i, j);
    }
  }

  lemma CountedTwice<T>(s: seq<T>, i: nat, j: nat)
    requires i < j < |s|
    ensures s[i] == s[j] ==> multiset(s)[s[i]] >= 2
  {
    assert s == s[..j] + s[j..];
    assert s[i] == s[..j][i] && s[j] == s[j..][0];
  }

  lemma {:induction false} OnceEach<T>(s: seq<T>)
    requires forall i, j :: 0 <= i < j < |s| ==> s[i] != s[j]
    ensures forall x :: x in s ==> multiset(s)[x] == 1
  {
    if s != [] {
      OnceEach(s[1..]);
      assert s == [s[0]] + s[1..];
    }
  }
}
