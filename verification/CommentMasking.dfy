// Which source lines keep visible text once HTML comments are taken out.
module CommentMasking {
  import opened Options
  import opened Sorting
  import opened Splitting
  import opened Whitespace

  // A half-open interval of source offsets, or of columns of one line.
  datatype Interval = Interval(start: nat, end: nat)

  predicate In(r: Interval, at: nat) {
    r.start <= at < r.end
  }

  ghost predicate HasInk(s: string) {
    exists i :: 0 <= i < |s| && !IsSpace(s[i])
  }

  lemma {:induction false} TrimStartInk(s: string)
    ensures HasInk(TrimStart(s)) <==> HasInk(s)
    ensures TrimStart(s) != "" ==> HasInk(s)
  {
    if s != "" && IsSpace(s[0]) {
      TrimStartInk(s[1..]);
      if HasInk(s) {
        var i :| 0 <= i < |s| && !IsSpace(s[i]);
        assert !IsSpace(s[1..][i - 1]);
      }
      if HasInk(s[1..]) {
        var i :| 0 <= i < |s[1..]| && !IsSpace(s[1..][i]);
        assert !IsSpace(s[i + 1]);
      }
    }
  }

  lemma {:induction false} TrimEndInk(s: string)
    ensures TrimEnd(s) != "" <==> HasInk(s)
  {
    if s != "" && IsSpace(s[|s| - 1]) {
      var front := s[..|s| - 1];
      TrimEndInk(front);
      if HasInk(s) {
        var i :| 0 <= i < |s| && !IsSpace(s[i]);
        assert !IsSpace(front[i]);
      }
      if HasInk(front) {
        var i :| 0 <= i < |front| && !IsSpace(front[i]);
        assert !IsSpace(s[i]);
      }
    }
  }

  lemma TrimKeepsInk(s: string)
    ensures Trim(s) != "" <==> HasInk(s)
  {
    TrimStartInk(s);
    TrimEndInk(TrimStart(s));
  }

  lemma InkConcat(s: string, t: string)
    ensures HasInk(s + t) <==> HasInk(s) || HasInk(t)
  {
    if HasInk(s + t) {
      var i :| 0 <= i < |s + t| && !IsSpace((s + t)[i]);
      if i < |s| { assert !IsSpace(s[i]); } else { assert !IsSpace(t[i - |s|]); }
    }
    if HasInk(s) {
      var i :| 0 <= i < |s| && !IsSpace(s[i]);
      assert !IsSpace((s + t)[i]);
    }
    if HasInk(t) {
      var i :| 0 <= i < |t| && !IsSpace(t[i]);
      assert !IsSpace((s + t)[|s| + i]);
    }
  }

  // ---- One line ----

  // slice of the language: empty when the bounds cross, cut off at the end of the string.
  function Slice(s: string, from: nat, to: nat): string {
    if from < |s| && from < to then s[from..if to < |s| then to else |s|] else ""
  }

  predicate ByStart(a: Interval, b: Interval) { a.start <= b.start }

  ghost predicate Covered(ranges: seq<Interval>, at: nat) {
    exists r :: r in ranges && In(r, at)
  }

  // Some visible column before `limit` lies in none of the ranges.
  ghost predicate InkOutside(raw: string, ranges: seq<Interval>, limit: nat) {
    exists c: nat :: InkAt(raw, ranges, limit, c)
  }

  ghost predicate InkAt(raw: string, ranges: seq<Interval>, limit: nat, c: nat) {
    c < limit && c < |raw| && !IsSpace(raw[c]) && !Covered(ranges, c)
  }

  // The cursor is the furthest end of the ranges so far.
  ghost predicate CursorOf(ranges: seq<Interval>, cursor: nat) {
    && (forall r :: r in ranges ==> r.end <= cursor)
    && (cursor == 0 || exists r :: r in ranges && r.end == cursor)
  }

  lemma SliceInk(raw: string, from: nat, to: nat)
    ensures HasInk(Slice(raw, from, to)) <==> exists c: nat :: from <= c < to && c < |raw| && !IsSpace(raw[c])
  {
    var s := Slice(raw, from, to);
    if HasInk(s) {
      var i :| 0 <= i < |s| && !IsSpace(s[i]);
      assert raw[from + i] == s[i];
    }
    if c: nat :| from <= c < to && c < |raw| && !IsSpace(raw[c]) {
      assert s[c - from] == raw[c];
    }
  }

  lemma CoveredSnoc(done: seq<Interval>, next: Interval, at: nat)
    ensures Covered(done + [next], at) <==> Covered(done, at) || In(next, at)
  {
    if Covered(done, at) {
      var r :| r in done && In(r, at);
      assert r in done + [next];
    }
    if In(next, at) { assert next in done + [next]; }
  }

  // What lies open before the cursor also lies before the next range.
  lemma OpenIsBefore(done: seq<Interval>, cursor: nat, next: Interval, c: nat)
    requires CursorOf(done, cursor) && forall r :: r in done ==> r.start <= next.start
    requires c < cursor && !Covered(done, c)
    ensures c < next.start
  {
    var r :| r in done && r.end == cursor;
    assert !In(r, c);
  }

  lemma CursorMoves(done: seq<Interval>, cursor: nat, next: Interval)
    requires CursorOf(done, cursor)
    ensures CursorOf(done + [next], if cursor < next.end then next.end else cursor)
  {
    assert next in done + [next];
    if cursor > 0 {
      var r :| r in done && r.end == cursor;
      assert r in done + [next];
    }
  }

  // Appending the text up to the next range adds its ink and nothing else.
  lemma NextRange(raw: string, done: seq<Interval>, cursor: nat, next: Interval)
    requires CursorOf(done, cursor) && next.start <= next.end
    requires forall r :: r in done ==> r.start <= next.start
    ensures var cursor' := if cursor < next.end then next.end else cursor;
      InkOutside(raw, done + [next], cursor') <==>
        InkOutside(raw, done, cursor) || HasInk(Slice(raw, cursor, next.start))
  {
    var cursor' := if cursor < next.end then next.end else cursor;
    var more := done + [next];
    SliceInk(raw, cursor, next.start);
    if c: nat :| InkAt(raw, more, cursor', c) {
      CoveredSnoc(done, next, c);
      if c < cursor { assert InkAt(raw, done, cursor, c); }
    }
    if c: nat :| InkAt(raw, done, cursor, c) {
      OpenIsBefore(done, cursor, next, c);
      CoveredSnoc(done, next, c);
      assert InkAt(raw, more, cursor', c);
    }
    if c: nat :| cursor <= c < next.start && c < |raw| && !IsSpace(raw[c]) {
      CoveredSnoc(done, next, c);
      BeyondCursor(done, cursor, c);
      assert InkAt(raw, more, cursor', c);
    }
  }

  lemma BeyondCursor(done: seq<Interval>, cursor: nat, c: nat)
    requires CursorOf(done, cursor) && cursor <= c
    ensures !Covered(done, c)
  {
  }

  lemma LastSlice(raw: string, done: seq<Interval>, cursor: nat)
    requires CursorOf(done, cursor)
    ensures InkOutside(raw, done, |raw|) <==> InkOutside(raw, done, cursor) || HasInk(Slice(raw, cursor, |raw|))
  {
    SliceInk(raw, cursor, |raw|);
    if c: nat :| InkAt(raw, done, |raw|, c) {
      if c < cursor { assert InkAt(raw, done, cursor, c); }
    }
    if c: nat :| InkAt(raw, done, cursor, c) {
      assert InkAt(raw, done, |raw|, c);
    }
    if c: nat :| cursor <= c < |raw| && !IsSpace(raw[c]) {
      BeyondCursor(done, cursor, c);
      assert InkAt(raw, done, |raw|, c);
    }
  }

  // One round of the loop below.
  lemma AppendUpTo(raw: string, sorted: seq<Interval>, k: nat, cursor: nat, visible: string)
    requires Sorted(ByStart, sorted) && k < |sorted| && sorted[k].start <= sorted[k].end
    requires CursorOf(sorted[..k], cursor) && (HasInk(visible) <==> InkOutside(raw, sorted[..k], cursor))
    ensures var cursor' := if cursor < sorted[k].end then sorted[k].end else cursor;
      && CursorOf(sorted[..k + 1], cursor')
      && (HasInk(visible + Slice(raw, cursor, sorted[k].start)) <==> InkOutside(raw, sorted[..k + 1], cursor'))
  {
    var next, done := sorted[k], sorted[..k];
    assert sorted[..k + 1] == done + [next];
    forall r | r in done ensures r.start <= next.start {
      var i :| 0 <= i < k && sorted[i] == r;
      assert ByStart(sorted[i], sorted[k]);
    }
    InkConcat(visible, Slice(raw, cursor, next.start));
    NextRange(raw, done, cursor, next);
    CursorMoves(done, cursor, next);
  }

  // A line without ranges counts as it is; otherwise it needs a visible character outside them.
  method HasRenderedTextOutsideComments(raw: string, ranges: Option<seq<Interval>>) returns (r: bool)
    requires ranges.Some? ==> forall x :: x in ranges.value ==> x.start <= x.end
    ensures r <==> ranges.None? || InkOutside(raw, ranges.value, |raw|)
  {
    if ranges.None? { return true; }
    var cursor: nat, visible := 0, "";
    var sorted := Sort(ByStart, ranges.value);
    SortSorts(ByStart, ranges.value);
    SortKeepsMembers(ByStart, ranges.value);
    assert forall k :: 0 <= k < |sorted| ==> sorted[k] in sorted;
    for k := 0 to |sorted|
      invariant CursorOf(sorted[..k], cursor)
      invariant HasInk(visible) <==> InkOutside(raw, sorted[..k], cursor)
    {
      var next := sorted[k];
      AppendUpTo(raw, sorted, k, cursor, visible);
      visible := visible + Slice(raw, cursor, next.start);
      cursor := if cursor < next.end then next.end else cursor;
    }
    assert sorted[..|sorted|] == sorted;
    InkConcat(visible, Slice(raw, cursor, |raw|));
    LastSlice(raw, sorted, cursor);
    visible := visible + Slice(raw, cursor, |raw|);
    TrimKeepsInk(visible);
    SameCover(sorted, ranges.value, raw);
    return |Trim(visible)| > 0;
  }

  lemma SameCover(a: seq<Interval>, b: seq<Interval>, raw: string)
    requires forall r :: r in a <==> r in b
    ensures InkOutside(raw, a, |raw|) <==> InkOutside(raw, b, |raw|)
  {
    forall c ensures Covered(a, c) <==> Covered(b, c) {}
    if c: nat :| InkAt(raw, a, |raw|, c) { assert InkAt(raw, b, |raw|, c); }
    if c: nat :| InkAt(raw, b, |raw|, c) { assert InkAt(raw, a, |raw|, c); }
  }

  // ---- All lines ----

  // split at newlines.
  function SplitLines(s: string): (lines: seq<string>)
    ensures |lines| > 0
  {
    SplitOn(s, '\n')
  }

  // The offset at which a line starts.
  function LineStart(lines: seq<string>, k: nat): nat
    requires k <= |lines|
  {
    if k == 0 then 0 else LineStart(lines, k - 1) + |lines[k - 1]| + 1
  }

  lemma {:induction false} LineStartShift(first: string, rest: seq<string>, k: nat)
    requires k <= |rest|
    ensures LineStart([first] + rest, k + 1) == |first| + 1 + LineStart(rest, k)
  {
    if k > 0 {
      LineStartShift(first, rest, k - 1);
      assert ([first] + rest)[k] == rest[k - 1];
    } else {
      assert LineStart([first] + rest, 1) == LineStart([first] + rest, 0) + |first| + 1;
    }
  }

  // Column c of line k is the source character at that line's start plus c.
  lemma {:induction false} ColumnIsOffset(source: string, k: nat, c: nat)
    requires k < |SplitLines(source)| && c < |SplitLines(source)[k]|
    ensures LineStart(SplitLines(source), k) + c < |source|
    ensures source[LineStart(SplitLines(source), k) + c] == SplitLines(source)[k][c]
  {
    var lines := SplitLines(source);
    var rest := SplitLines(source[1..]);
    if source[0] == '\n' {
      assert lines == [""] + rest;
      ColumnIsOffset(source[1..], k - 1, c);
      LineStartShift("", rest, k - 1);
    } else {
      var first := [source[0]] + rest[0];
      assert lines == [first] + rest[1..] && rest == [rest[0]] + rest[1..];
      if k == 0 {
        if c > 0 {
          ColumnIsOffset(source[1..], 0, c - 1);
        }
      } else {
        ColumnIsOffset(source[1..], k, c);
        LineStartShift(first, rest[1..], k - 1);
        LineStartShift(rest[0], rest[1..], k - 1);
      }
    }
  }

  function Max(a: int, b: int): int { if a < b then b else a }
  function Min(a: int, b: int): int { if a < b then a else b }

  // The comment takes up part of the line that starts at `lo`, or runs over that empty line.
  predicate Touches(comment: Interval, raw: string, lo: nat) {
    || Max(comment.start, lo) < Min(comment.end, lo + |raw|)
    || (|raw| == 0 && comment.start <= lo && comment.end > lo)
  }

  // A source offset belongs to the line: that of one of its characters, or of its end if it is empty.
  ghost predicate OnLine(raw: string, lo: nat, at: nat) {
    lo <= at < lo + |raw| || (|raw| == 0 && at == lo)
  }

  lemma TouchesIff(comment: Interval, raw: string, lo: nat)
    ensures Touches(comment, raw, lo) <==> exists at: nat :: OnLine(raw, lo, at) && In(comment, at)
  {
    if Touches(comment, raw, lo) {
      var at: nat := Max(comment.start, lo);
      assert OnLine(raw, lo, at) && In(comment, at);
    }
  }

  lemma UntouchedIff(comments: seq<Interval>, raw: string, lo: nat)
    ensures (forall x :: x in comments ==> !Touches(x, raw, lo))
       <==> forall at: nat :: OnLine(raw, lo, at) ==> !Covered(comments, at)
  {
    if x :| x in comments && Touches(x, raw, lo) {
      TouchesIff(x, raw, lo);
      var at: nat :| OnLine(raw, lo, at) && In(x, at);
      assert Covered(comments, at);
    }
    if at: nat :| OnLine(raw, lo, at) && Covered(comments, at) {
      var x :| x in comments && In(x, at);
      TouchesIff(x, raw, lo);
    }
  }

  function Columns(comment: Interval, raw: string, lo: nat): (r: Interval)
    requires Touches(comment, raw, lo)
    ensures r.start <= r.end
    ensures forall c :: 0 <= c < |raw| ==> (In(r, c) <==> In(comment, lo + c))
  {
    Interval(Max(comment.start, lo) - lo, Min(comment.end, lo + |raw|) - lo)
  }

  // The column ranges comments take up in one line, if any.
  method LineRanges(comments: seq<Interval>, raw: string, lo: nat) returns (ranges: Option<seq<Interval>>)
    ensures ranges.None? <==> forall at: nat :: OnLine(raw, lo, at) ==> !Covered(comments, at)
    ensures ranges.Some? ==> forall r :: r in ranges.value ==> r.start <= r.end
    ensures ranges.Some? ==> forall c :: 0 <= c < |raw| ==> (Covered(ranges.value, c) <==> Covered(comments, lo + c))
  {
    var found: seq<Interval> := [];
    for i := 0 to |comments|
      invariant forall r :: r in found ==> r.start <= r.end
      invariant found == [] <==> forall x :: x in comments[..i] ==> !Touches(x, raw, lo)
      invariant forall c :: 0 <= c < |raw| ==> (Covered(found, c) <==> Covered(comments[..i], lo + c))
    {
      var comment := comments[i];
      assert comments[..i + 1] == comments[..i] + [comment];
      ghost var before := found;
      if Touches(comment, raw, lo) {
        found := found + [Columns(comment, raw, lo)];
      }
      forall c | 0 <= c < |raw| ensures Covered(found, c) <==> Covered(comments[..i + 1], lo + c) {
        CoveredSnoc(comments[..i], comment, lo + c);
        if Touches(comment, raw, lo) { CoveredSnoc(before, Columns(comment, raw, lo), c); }
      }
    }
    assert comments[..|comments|] == comments;
    UntouchedIff(comments, raw, lo);
    ranges := if found == [] then None else Some(found);
  }

  ghost function CoveredBy(comments: seq<Interval>): nat -> bool {
    (at: nat) => Covered(comments, at)
  }

  // Line k shows text: no offset of it is masked, or some visible character of it is not.
  ghost predicate ShowsText(source: string, masked: nat -> bool, k: nat)
    requires k < |SplitLines(source)|
  {
    var lines := SplitLines(source);
    || (forall at: nat :: OnLine(lines[k], LineStart(lines, k), at) ==> !masked(at))
    || SomeInk(source, masked, k)
  }

  ghost predicate InkOfLine(source: string, masked: nat -> bool, k: nat, at: nat)
    requires k < |SplitLines(source)|
  {
    var lines := SplitLines(source);
    && LineStart(lines, k) <= at < LineStart(lines, k) + |lines[k]|
    && at < |source| && !IsSpace(source[at]) && !masked(at)
  }

  lemma ColumnInk(source: string, comments: seq<Interval>, ranges: seq<Interval>, k: nat, raw: string, lo: nat, c: nat)
    requires k < |SplitLines(source)| && raw == SplitLines(source)[k] && lo == LineStart(SplitLines(source), k)
    requires c < |raw| && (Covered(ranges, c) <==> Covered(comments, lo + c))
    ensures InkAt(raw, ranges, |raw|, c) <==> InkOfLine(source, CoveredBy(comments), k, lo + c)
  {
    ColumnIsOffset(source, k, c);
  }

  lemma LineInk(source: string, comments: seq<Interval>, ranges: seq<Interval>, k: nat, raw: string, lo: nat)
    requires k < |SplitLines(source)| && raw == SplitLines(source)[k] && lo == LineStart(SplitLines(source), k)
    requires forall c :: 0 <= c < |raw| ==> (Covered(ranges, c) <==> Covered(comments, lo + c))
    ensures InkOutside(raw, ranges, |raw|) <==> SomeInk(source, CoveredBy(comments), k)
  {
    var masked := CoveredBy(comments);
    if c: nat :| InkAt(raw, ranges, |raw|, c) {
      ColumnInk(source, comments, ranges, k, raw, lo, c);
    }
    if at: nat :| InkOfLine(source, masked, k, at) {
      ColumnInk(source, comments, ranges, k, raw, lo, at - lo);
    }
  }

  ghost predicate SomeInk(source: string, masked: nat -> bool, k: nat)
    requires k < |SplitLines(source)|
  {
    exists at: nat :: InkOfLine(source, masked, k, at)
  }

  datatype ProseLine = ProseLine(index: nat, raw: string)

  // markdownProseLines: the lines outside code blocks that show text, for whatever overlapping,
  // nested or multi-line comment intervals.
  method ProseLines(source: string, comments: seq<Interval>, fenced: set<nat>) returns (kept: seq<ProseLine>)
    ensures kept == Kept(source, CoveredBy(comments), fenced, |SplitLines(source)|)
  {
    var rawLines := SplitLines(source);
    kept := [];
    var lineOffset := 0;
    for i := 0 to |rawLines|
      invariant lineOffset == LineStart(rawLines, i)
      invariant kept == Kept(source, CoveredBy(comments), fenced, i)
    {
      var ranges := LineRanges(comments, rawLines[i], lineOffset);
      if i + 1 !in fenced {
        var shows := HasRenderedTextOutsideComments(rawLines[i], ranges);
        LineShows(source, comments, ranges, i, rawLines[i], lineOffset);
        if shows { kept := kept + [ProseLine(i + 1, rawLines[i])]; }
      }
      lineOffset := lineOffset + |rawLines[i]| + 1;
    }
  }

  lemma LineShows(source: string, comments: seq<Interval>, ranges: Option<seq<Interval>>, k: nat, raw: string, lo: nat)
    requires k < |SplitLines(source)| && raw == SplitLines(source)[k] && lo == LineStart(SplitLines(source), k)
    requires ranges.None? <==> forall at: nat :: OnLine(raw, lo, at) ==> !Covered(comments, at)
    requires ranges.Some? ==> forall c :: 0 <= c < |raw| ==> (Covered(ranges.value, c) <==> Covered(comments, lo + c))
    ensures ShowsText(source, CoveredBy(comments), k) <==> ranges.None? || InkOutside(raw, ranges.value, |raw|)
  {
    if ranges.Some? { LineInk(source, comments, ranges.value, k, raw, lo); }
  }

  ghost function Kept(source: string, masked: nat -> bool, fenced: set<nat>, n: nat): seq<ProseLine>
    requires n <= |SplitLines(source)|
  {
    if n == 0 then []
    else
      var before := Kept(source, masked, fenced, n - 1);
      if n !in fenced && ShowsText(source, masked, n - 1)
      then before + [ProseLine(n, SplitLines(source)[n - 1])] else before
  }

  lemma {:induction false} SameMaskKeeps(source: string, a: nat -> bool, b: nat -> bool, fenced: set<nat>, n: nat)
    requires n <= |SplitLines(source)| && forall at: nat :: a(at) <==> b(at)
    ensures Kept(source, a, fenced, n) == Kept(source, b, fenced, n)
  {
    if n > 0 {
      SameMaskKeeps(source, a, b, fenced, n - 1);
      SameMaskShows(source, a, b, n - 1);
    }
  }

  lemma SameMaskShows(source: string, a: nat -> bool, b: nat -> bool, k: nat)
    requires k < |SplitLines(source)| && forall at: nat :: a(at) <==> b(at)
    ensures ShowsText(source, a, k) <==> ShowsText(source, b, k)
  {
    if at: nat :| InkOfLine(source, a, k, at) { assert InkOfLine(source, b, k, at); }
    if at: nat :| InkOfLine(source, b, k, at) { assert InkOfLine(source, a, k, at); }
  }
}
