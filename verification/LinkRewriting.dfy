// Splicing replacements into a document from its end to its start, and the rewrite of all
// wrong-locale links of a document.
module LinkRewriting {
  import opened Sorting

  datatype Replacement = Replacement(start: nat, end: nat, value: string)

  // ---- The splice ----

  predicate ByDescendingStart(a: Replacement, b: Replacement) {
    b.start <= a.start
  }

  // In range and apart from each other, in whatever order they are listed.
  ghost predicate Disjoint(text: string, rs: seq<Replacement>) {
    && (forall r :: r in rs ==> r.start <= r.end <= |text|)
    && (forall i, j :: 0 <= i < |rs| && 0 <= j < |rs| && i != j ==> Apart(rs[i], rs[j]))
  }

  predicate Apart(a: Replacement, b: Replacement) {
    (a.start < b.start && a.end <= b.start) || (b.start < a.start && b.end <= a.start)
  }

  // Each in turn ends before the next starts.
  ghost predicate Ascending(text: string, rs: seq<Replacement>, from: nat) {
    if rs == [] then from <= |text|
    else from <= rs[0].start <= rs[0].end <= |text| && Ascending(text, rs[1..], rs[0].end)
  }

  // Simultaneous substitution, read from left to right: everything outside the ranges is kept.
  function Substitute(text: string, rs: seq<Replacement>, from: nat): string
    requires Ascending(text, rs, from)
  {
    if rs == [] then text[from..]
    else text[from..rs[0].start] + rs[0].value + Substitute(text, rs[1..], rs[0].end)
  }

  lemma {:induction false} SubstitutePrefix(text: string, rs: seq<Replacement>, from: nat, x: nat)
    requires Ascending(text, rs, from) && from <= x && (rs != [] ==> x <= rs[0].start) && x <= |text|
    ensures Ascending(text, rs, x)
    ensures Substitute(text, rs, from) == text[from..x] + Substitute(text, rs, x)
  {
    if rs == [] {
      assert text[from..] == text[from..x] + text[x..];
    } else {
      var a, b, tail := text[from..x], text[x..rs[0].start], Substitute(text, rs[1..], rs[0].end);
      assert text[from..rs[0].start] == a + b;
      assert ((a + b) + rs[0].value) + tail == a + ((b + rs[0].value) + tail);
    }
  }

  // Splicing one more replacement in before all earlier ones.
  lemma SpliceBefore(text: string, r: Replacement, rs: seq<Replacement>)
    requires r.start <= r.end <= |text| && Ascending(text, rs, r.end)
    ensures Ascending(text, rs, 0) && Ascending(text, [r] + rs, 0)
    ensures var output := Substitute(text, rs, 0);
      && r.end <= |output|
      && output[..r.start] + r.value + output[r.end..] == Substitute(text, [r] + rs, 0)
  {
    AscendingFromZero(text, rs, r.end);
    SubstitutePrefix(text, rs, 0, r.end);
    var tail := Substitute(text, rs, r.end);
    var output := Substitute(text, rs, 0);
    assert output == text[0..r.end] + tail;
    assert output[..r.start] == text[0..r.start] && output[r.end..] == tail;
    assert ([r] + rs)[1..] == rs;
  }

  lemma AscendingFromZero(text: string, rs: seq<Replacement>, from: nat)
    requires Ascending(text, rs, from)
    ensures Ascending(text, rs, 0)
  {
  }

  function Reversed<T>(s: seq<T>): (r: seq<T>)
    ensures |r| == |s| && forall i :: 0 <= i < |s| ==> r[i] == s[|s| - 1 - i]
  {
    if s == [] then [] else Reversed(s[1..]) + [s[0]]
  }

  // Replacements in descending order, each before the one that precedes it in the list.
  ghost predicate Descending(text: string, rs: seq<Replacement>) {
    && (forall r :: r in rs ==> r.start <= r.end <= |text|)
    && (forall i, j :: 0 <= i < j < |rs| ==> rs[j].end <= rs[i].start)
  }

  lemma ReversedSnoc<T>(s: seq<T>, x: T)
    ensures Reversed(s + [x]) == [x] + Reversed(s)
  {
  }

  lemma DescendingFront(text: string, rs: seq<Replacement>, k: nat)
    requires Descending(text, rs) && k < |rs|
    ensures Descending(text, rs[..k]) && rs[k].start <= rs[k].end <= |text|
    ensures k > 0 ==> rs[k].end <= rs[k - 1].start
  {
    forall r | r in rs[..k] ensures r.start <= r.end <= |text| { assert r in rs; }
    assert rs[k] in rs;
  }

  // The first k replacements in descending order, read backwards, ascend from wherever the
  // next one ends.
  lemma {:induction false} DescendingReversed(text: string, rs: seq<Replacement>, k: nat, from: nat)
    requires Descending(text, rs) && k <= |rs| && from <= |text|
    requires k > 0 ==> from <= rs[k - 1].start
    ensures Ascending(text, Reversed(rs[..k]), from)
  {
    if k > 0 {
      DescendingFront(text, rs, k - 1);
      DescendingReversed(text, rs, k - 1, rs[k - 1].end);
      assert rs[..k] == rs[..k - 1] + [rs[k - 1]];
      ReversedSnoc(rs[..k - 1], rs[k - 1]);
      AscendingCons(text, rs[k - 1], Reversed(rs[..k - 1]), from);
    }
  }

  lemma AscendingCons(text: string, r: Replacement, rs: seq<Replacement>, from: nat)
    requires from <= r.start <= r.end <= |text| && Ascending(text, rs, r.end)
    ensures Ascending(text, [r] + rs, from)
  {
    assert ([r] + rs)[1..] == rs;
  }

  // One round of the splicing loop.
  lemma SpliceNext(text: string, sorted: seq<Replacement>, k: nat)
    requires Descending(text, sorted) && k < |sorted|
    ensures Ascending(text, Reversed(sorted[..k]), 0) && Ascending(text, Reversed(sorted[..k + 1]), 0)
    ensures var output := Substitute(text, Reversed(sorted[..k]), 0);
      && sorted[k].start <= sorted[k].end <= |output|
      && output[..sorted[k].start] + sorted[k].value + output[sorted[k].end..]
           == Substitute(text, Reversed(sorted[..k + 1]), 0)
  {
    DescendingFront(text, sorted, k);
    DescendingReversed(text, sorted, k, sorted[k].end);
    SpliceBefore(text, sorted[k], Reversed(sorted[..k]));
    assert sorted[..k + 1] == sorted[..k] + [sorted[k]];
    ReversedSnoc(sorted[..k], sorted[k]);
  }

  lemma SortedIsDescending(text: string, rs: seq<Replacement>)
    requires Disjoint(text, rs)
    ensures Descending(text, Sort(ByDescendingStart, rs))
  {
    var sorted := Sort(ByDescendingStart, rs);
    forall i, j | 0 <= i < j < |rs| ensures rs[i] != rs[j] { assert Apart(rs[i], rs[j]); }
    SortSorts(ByDescendingStart, rs);
    SortKeepsMembers(ByDescendingStart, rs);
    SortKeepsDistinct(ByDescendingStart, rs);
    forall i, j | 0 <= i < j < |sorted| ensures sorted[j].end <= sorted[i].start {
      assert sorted[i] in sorted && sorted[j] in sorted;
      var a :| 0 <= a < |rs| && rs[a] == sorted[i];
      var b :| 0 <= b < |rs| && rs[b] == sorted[j];
      assert Apart(rs[a], rs[b]);
      assert ByDescendingStart(sorted[i], sorted[j]);
    }
  }

  method ApplyReplacements(markdown: string, replacements: seq<Replacement>) returns (output: string)
    requires Disjoint(markdown, replacements)
    ensures Ascending(markdown, Reversed(Sort(ByDescendingStart, replacements)), 0)
    ensures output == Substitute(markdown, Reversed(Sort(ByDescendingStart, replacements)), 0)
  {
    output := markdown;
    var sorted := Sort(ByDescendingStart, replacements);
    SortedIsDescending(markdown, replacements);
    DescendingReversed(markdown, sorted, 0, 0);
    assert output == markdown[0..];
    for k := 0 to |sorted|
      invariant Ascending(markdown, Reversed(sorted[..k]), 0)
      invariant output == Substitute(markdown, Reversed(sorted[..k]), 0)
    {
      SpliceNext(markdown, sorted, k);
      output := output[..sorted[k].start] + sorted[k].value + output[sorted[k].end..];
    }
    assert sorted[..|sorted|] == sorted;
  }
}
