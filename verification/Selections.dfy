// The items of a list that are to be kept, and what keeping them in order means.
module Selections {
  function Select<T>(items: seq<T>, keep: T -> bool): seq<T> {
    if items == [] then []
    else (if keep(items[0]) then [items[0]] else []) + Select(items[1..], keep)
  }

  lemma {:induction false} SelectSnoc<T>(items: seq<T>, keep: T -> bool, x: T)
    ensures Select(items + [x], keep) == Select(items, keep) + (if keep(x) then [x] else [])
  {
    if items == [] {
      assert items + [x] == [x] && [x][1..] == [];
    } else {
      var longer := items + [x];
      var first := if keep(items[0]) then [items[0]] else [];
      assert longer[0] == items[0] && longer[1..] == items[1..] + [x];
      SelectSnoc(items[1..], keep, x);
      assert Select(longer, keep) == first + Select(longer[1..], keep);
    }
  }

  // `selected` are the items at these positions, in their order, and they are all to be kept.
  ghost predicate StandsAt<T>(items: seq<T>, keep: T -> bool, selected: seq<T>, at: seq<nat>) {
    && |at| == |selected|
    && (forall i, j :: 0 <= i < j < |at| ==> at[i] < at[j])
    && (forall i :: 0 <= i < |at| ==> at[i] < |items| && selected[i] == items[at[i]])
    && (forall k: nat :: k < |items| ==> (keep(items[k]) <==> k in at))
  }

  ghost predicate IsSelection<T>(items: seq<T>, keep: T -> bool, selected: seq<T>) {
    exists at: seq<nat> :: StandsAt(items, keep, selected, at)
  }

  lemma SameSelection<T>(items: seq<T>, p: T -> bool, q: T -> bool, selected: seq<T>)
    requires IsSelection(items, p, selected) && forall x :: x in items ==> (p(x) <==> q(x))
    ensures IsSelection(items, q, selected)
  {
    var at: seq<nat> :| StandsAt(items, p, selected, at);
    assert StandsAt(items, q, selected, at);
  }

  lemma SelectedIsKept<T>(items: seq<T>, keep: T -> bool, selected: seq<T>, x: T)
    requires IsSelection(items, keep, selected) && x in selected
    ensures x in items && keep(x)
  {
    var at: seq<nat> :| StandsAt(items, keep, selected, at);
    var i :| 0 <= i < |selected| && selected[i] == x;
    assert at[i] in at;
  }

  lemma {:induction false} SelectKeepsOrder<T>(items: seq<T>, keep: T -> bool) returns (at: seq<nat>)
    ensures StandsAt(items, keep, Select(items, keep), at)
  {
    at := [];
    if items != [] {
      var front, last := items[..|items| - 1], items[|items| - 1];
      at := SelectKeepsOrder(front, keep);
      SelectSnoc(front, keep, last);
      assert front + [last] == items;
      if keep(last) { at := at + [|front|]; }
    }
  }

  lemma SelectIsSelection<T>(items: seq<T>, keep: T -> bool)
    ensures IsSelection(items, keep, Select(items, keep))
    ensures forall x :: x in Select(items, keep) <==> x in items && keep(x)
  {
    var at := SelectKeepsOrder(items, keep);
    var selected := Select(items, keep);
    forall x ensures x in selected <==> x in items && keep(x) {
      if x in selected {
        var i :| 0 <= i < |selected| && selected[i] == x;
        assert at[i] in at;
      }
      if x in items && keep(x) {
        var k :| 0 <= k < |items| && items[k] == x;
        var i :| 0 <= i < |at| && at[i] == k;
        assert selected[i] == x;
      }
    }
  }

  // There is one such selection.
  lemma {:induction false} SelectionIsOne<T>(items: seq<T>, keep: T -> bool, selected: seq<T>, at: seq<nat>)
    requires StandsAt(items, keep, selected, at)
    ensures selected == Select(items, keep)
  {
    if items != [] {
      var n := |items| - 1;
      var front, last := items[..n], items[n];
      assert items == front + [last];
      SelectSnoc(front, keep, last);
      if keep(last) {
        LastStands(items, keep, selected, at);
        SelectionIsOne(front, keep, selected[..|selected| - 1], at[..|at| - 1]);
        assert selected == selected[..|selected| - 1] + [last];
      } else {
        WithoutLast(items, keep, selected, at);
        SelectionIsOne(front, keep, selected, at);
      }
    } else {
      NoneWithoutItems(items, keep, selected, at);
    }
  }

  lemma NoneWithoutItems<T>(items: seq<T>, keep: T -> bool, selected: seq<T>, at: seq<nat>)
    requires StandsAt(items, keep, selected, at)
    ensures at != [] ==> items != []
  {
    if at != [] { assert at[0] < |items|; }
  }

  lemma LastIsGreatest(at: seq<nat>, i: nat)
    requires i < |at| && forall i, j :: 0 <= i < j < |at| ==> at[i] < at[j]
    ensures at[i] <= at[|at| - 1]
  {
  }

  lemma LastStands<T>(items: seq<T>, keep: T -> bool, selected: seq<T>, at: seq<nat>)
    requires StandsAt(items, keep, selected, at) && items != [] && keep(items[|items| - 1])
    ensures at != [] && selected[|selected| - 1] == items[|items| - 1]
    ensures StandsAt(items[..|items| - 1], keep, selected[..|selected| - 1], at[..|at| - 1])
  {
    var n := |items| - 1;
    assert n in at;
    var i :| 0 <= i < |at| && at[i] == n;
    LastIsGreatest(at, i);
    assert at[|at| - 1] == n;
    forall k: nat | k < n ensures keep(items[..n][k]) <==> k in at[..|at| - 1] {
      assert at == at[..|at| - 1] + [n];
      assert k in at <==> k in at[..|at| - 1];
    }
  }

  lemma WithoutLast<T>(items: seq<T>, keep: T -> bool, selected: seq<T>, at: seq<nat>)
    requires StandsAt(items, keep, selected, at) && items != [] && !keep(items[|items| - 1])
    ensures StandsAt(items[..|items| - 1], keep, selected, at)
  {
    var n := |items| - 1;
    forall i | 0 <= i < |at| ensures at[i] < n {
      assert at[i] in at;
    }
  }
}
