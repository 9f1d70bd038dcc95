// Where the HTML comments of a document are: the scan of the text of its HTML nodes.
module CommentScanning {
  import opened Options
  import opened CommentMasking

  const OPENER := "<!--"
  const CLOSER := "-->"

  predicate At(s: string, token: string, k: nat) {
    k + |token| <= |s| && s[k..k + |token|] == token
  }

  // String.indexOf
  method IndexOf(s: string, token: string, from: nat) returns (r: Option<nat>)
    ensures r.Some? ==> from <= r.value && At(s, token, r.value)
    ensures r.Some? ==> forall k: nat :: from <= k < r.value ==> !At(s, token, k)
    ensures r.None? ==> forall k: nat :: from <= k ==> !At(s, token, k)
  {
    var k := from;
    while k + |token| <= |s|
      invariant from <= k && forall j: nat :: from <= j < k ==> !At(s, token, j)
    {
      if s[k..k + |token|] == token { return Some(k); }
      k := k + 1;
    }
    return None;
  }

  // A comment runs from an opener to the end of the first closer behind it, or else to the end
  // of the text.
  ghost predicate IsComment(s: string, c: Interval) {
    && At(s, OPENER, c.start)
    && (EndsAtCloser(s, c) || (c.end == |s| && forall k: nat :: c.start + |OPENER| <= k ==> !At(s, CLOSER, k)))
  }

  ghost predicate EndsAtCloser(s: string, c: Interval) {
    && c.start + |OPENER| + |CLOSER| <= c.end && At(s, CLOSER, c.end - |CLOSER|)
    && forall k: nat :: c.start + |OPENER| <= k < c.end - |CLOSER| ==> !At(s, CLOSER, k)
  }

  ghost predicate Holds(c: Interval, k: nat) {
    In(c, k)
  }

  // The comments of the text up to the cursor: in order, apart, and with every opener there in
  // one of them.
  ghost predicate ScannedTo(s: string, cs: seq<Interval>, cursor: nat) {
    && (forall i :: 0 <= i < |cs| ==> IsComment(s, cs[i]) && cs[i].end <= cursor)
    && (forall i, j :: 0 <= i < j < |cs| ==> cs[i].end <= cs[j].start)
    && (forall k: nat {:trigger HeldBy(cs, k)} :: k < cursor && At(s, OPENER, k) ==> HeldBy(cs, k))
  }

  ghost predicate HeldBy(cs: seq<Interval>, k: nat) {
    exists i :: 0 <= i < |cs| && Holds(cs[i], k)
  }

  ghost predicate AreComments(s: string, cs: seq<Interval>) {
    ScannedTo(s, cs, |s|)
  }

  // The comments of one node's text.
  method ScanComments(s: string) returns (cs: seq<Interval>)
    ensures AreComments(s, cs)
  {
    cs := [];
    var cursor: nat := 0;
    while true
      invariant cursor <= |s| && ScannedTo(s, cs, cursor)
      decreases |s| - cursor
    {
      var start := IndexOf(s, OPENER, cursor);
      if start.None? { break; }
      var close := IndexOf(s, CLOSER, start.value + |OPENER|);
      var end := if close.None? then |s| else close.value + |CLOSER|;
      OneMoreComment(s, cs, cursor, Interval(start.value, end));
      cs := cs + [Interval(start.value, end)];
      cursor := end;
    }
  }

  lemma OneMoreComment(s: string, cs: seq<Interval>, cursor: nat, c: Interval)
    requires ScannedTo(s, cs, cursor) && IsComment(s, c)
    requires cursor <= c.start && forall k: nat :: cursor <= k < c.start ==> !At(s, OPENER, k)
    ensures ScannedTo(s, cs + [c], c.end)
  {
    var more := cs + [c];
    forall k: nat | k < c.end && At(s, OPENER, k) ensures HeldBy(more, k) {
      if k < cursor {
        assert HeldBy(cs, k);
        var i :| 0 <= i < |cs| && Holds(cs[i], k);
        assert Holds(more[i], k);
      } else {
        assert Holds(more[|cs|], k);
      }
    }
  }

  // A text has one list of comments.
  lemma CommentsAreUnique(s: string, a: seq<Interval>, b: seq<Interval>)
    requires AreComments(s, a) && AreComments(s, b)
    ensures a == b
  {
    if |a| <= |b| {
      CommentsAgree(s, a, b, |a|);
      NoneLeft(s, a, b);
    } else {
      CommentsAgree(s, a, b, |b|);
      NoneLeft(s, b, a);
    }
  }

  lemma {:induction false} CommentsAgree(s: string, a: seq<Interval>, b: seq<Interval>, n: nat)
    requires AreComments(s, a) && AreComments(s, b) && n <= |a| && n <= |b|
    ensures a[..n] == b[..n]
  {
    if n > 0 {
      CommentsAgree(s, a, b, n - 1);
      NextAgrees(s, a, b, n - 1);
      AgreeSnoc(a, b, n - 1);
    }
  }

  lemma NextAgrees(s: string, a: seq<Interval>, b: seq<Interval>, n: nat)
    requires AreComments(s, a) && AreComments(s, b) && n < |a| && n < |b| && a[..n] == b[..n]
    ensures a[n] == b[n]
  {
    NextNotLater(s, a, b, n);
    NextNotLater(s, b, a, n);
    SameEnd(s, a[n], b[n]);
  }

  lemma AgreeSnoc<T>(a: seq<T>, b: seq<T>, n: nat)
    requires n < |a| && n < |b| && a[..n] == b[..n] && a[n] == b[n]
    ensures a[..n + 1] == b[..n + 1]
  {
    assert a[..n + 1] == a[..n] + [a[n]] && b[..n + 1] == b[..n] + [b[n]];
  }

  // After equal comments, the next one of b starts no later than that of a.
  lemma NextNotLater(s: string, a: seq<Interval>, b: seq<Interval>, n: nat)
    requires AreComments(s, a) && AreComments(s, b) && n < |a| && n <= |b| && a[..n] == b[..n]
    ensures n < |b| && b[n].start <= a[n].start
  {
    forall j | 0 <= j < n ensures b[j].end <= a[n].start {
      assert a[..n][j] == b[..n][j];
    }
    HeldLater(s, b, n, a[n].start);
  }

  lemma HeldLater(s: string, b: seq<Interval>, n: nat, k: nat)
    requires AreComments(s, b) && At(s, OPENER, k) && n <= |b| && forall j :: 0 <= j < n ==> b[j].end <= k
    ensures n < |b| && b[n].start <= k
  {
    assert HeldBy(b, k);
    var j :| 0 <= j < |b| && Holds(b[j], k);
    assert IsComment(s, b[n]) && (n == j || b[n].end <= b[j].start);
  }

  lemma NoneLeft(s: string, a: seq<Interval>, b: seq<Interval>)
    requires AreComments(s, a) && AreComments(s, b) && |a| <= |b| && a == b[..|a|]
    ensures a == b
  {
    if |a| < |b| {
      assert a[..|a|] == a;
      NextNotLater(s, b, a, |a|);
    }
  }

  lemma SameEnd(s: string, c: Interval, d: Interval)
    requires IsComment(s, c) && IsComment(s, d) && c.start == d.start
    ensures c.end == d.end
  {
  }

  // A text with one opener has one comment, up to the closer behind it if there is one.
  lemma OneComment(before: string, inside: string, after: string)
    requires '<' !in before && '-' !in inside && '<' !in after
    ensures AreComments(before + "<!--" + inside + "-->" + after,
                        [Interval(|before|, |before| + |"<!--"| + |inside| + |"-->"|)])
    ensures AreComments(before + "<!--" + inside, [Interval(|before|, |before| + |"<!--"| + |inside|)])
  {
    ClosedComment(before, inside, after);
    OpenComment(before, inside);
  }

  lemma StartsAt(s: string, token: string, k: nat)
    requires At(s, token, k) && token != ""
    ensures s[k] == token[0]
  {
    assert s[k..k + |token|][0] == s[k];
  }

  lemma NotAt(s: string, token: string, k: nat)
    requires token != "" && (k < |s| ==> s[k] != token[0])
    ensures !At(s, token, k)
  {
    if At(s, token, k) { StartsAt(s, token, k); }
  }

  lemma OnlyOpener(s: string, c: Interval)
    requires IsComment(s, c) && c.end <= |s| && forall k :: 0 <= k < |s| && !In(c, k) ==> s[k] != '<'
    ensures AreComments(s, [c])
  {
    forall k: nat | k < |s| && At(s, OPENER, k) ensures HeldBy([c], k) {
      StartsAt(s, OPENER, k);
      assert Holds([c][0], k);
    }
  }

  lemma ClosedComment(before: string, inside: string, after: string)
    requires '<' !in before && '-' !in inside && '<' !in after
    ensures AreComments(before + "<!--" + inside + "-->" + after,
                        [Interval(|before|, |before| + |"<!--"| + |inside| + |"-->"|)])
  {
    var s, n := before + "<!--" + inside + "-->" + after, |before|;
    var c := Interval(n, n + 4 + |inside| + 3);
    assert s[n..n + 4] == "<!--" && s[c.end - 3..c.end] == "-->";
    forall k: nat | n + 4 <= k < c.end - 3 ensures !At(s, CLOSER, k) {
      assert s[k] == inside[k - n - 4];
      NotAt(s, CLOSER, k);
    }
    forall k | 0 <= k < |s| && !In(c, k) ensures s[k] != '<' {
      assert s[k] == if k < n then before[k] else after[k - c.end];
    }
    OnlyOpener(s, c);
  }

  lemma OpenComment(before: string, inside: string)
    requires '<' !in before && '-' !in inside
    ensures AreComments(before + "<!--" + inside, [Interval(|before|, |before| + |"<!--"| + |inside|)])
  {
    var s, n := before + "<!--" + inside, |before|;
    var c := Interval(n, |s|);
    assert s[n..n + 4] == "<!--";
    forall k: nat | n + 4 <= k ensures !At(s, CLOSER, k) {
      assert k < |s| ==> s[k] == inside[k - n - 4];
      NotAt(s, CLOSER, k);
    }
    forall k | 0 <= k < |s| && !In(c, k) ensures s[k] != '<' { assert s[k] == before[k]; }
    OnlyOpener(s, c);
  }

  // ---- The document ----

  datatype HtmlNode = HtmlNode(offset: nat, value: string)

  function Shifted(cs: seq<Interval>, offset: nat): (r: seq<Interval>)
    ensures |r| == |cs| && forall i :: 0 <= i < |cs| ==> r[i] == Interval(offset + cs[i].start, offset + cs[i].end)
  {
    seq(|cs|, i requires 0 <= i < |cs| => Interval(offset + cs[i].start, offset + cs[i].end))
  }

  // A source offset lies in a comment of the node.
  ghost predicate InCommentOf(node: HtmlNode, at: nat) {
    exists cs :: AreComments(node.value, cs) && Covered(Shifted(cs, node.offset), at)
  }

  ghost predicate InSomeComment(nodes: seq<HtmlNode>, at: nat) {
    exists i :: 0 <= i < |nodes| && InCommentOf(nodes[i], at)
  }

  method DocumentComments(nodes: seq<HtmlNode>) returns (comments: seq<Interval>)
    ensures forall at: nat :: Covered(comments, at) <==> InSomeComment(nodes, at)
  {
    comments := [];
    for i := 0 to |nodes|
      invariant forall at: nat :: Covered(comments, at) <==> InSomeComment(nodes[..i], at)
    {
      var cs := ScanComments(nodes[i].value);
      forall at: nat ensures Covered(comments + Shifted(cs, nodes[i].offset), at)
        <==> InSomeComment(nodes[..i + 1], at) {
        OneMoreNode(nodes, i, comments, cs, at);
      }
      comments := comments + Shifted(cs, nodes[i].offset);
    }
    assert nodes[..|nodes|] == nodes;
  }

  lemma OneMoreNode(nodes: seq<HtmlNode>, i: nat, comments: seq<Interval>, cs: seq<Interval>, at: nat)
    requires i < |nodes| && AreComments(nodes[i].value, cs)
    requires Covered(comments, at) <==> InSomeComment(nodes[..i], at)
    ensures Covered(comments + Shifted(cs, nodes[i].offset), at) <==> InSomeComment(nodes[..i + 1], at)
  {
    var own := Shifted(cs, nodes[i].offset);
    assert Covered(comments + own, at) <==> Covered(comments, at) || Covered(own, at);
    assert InCommentOf(nodes[i], at) <==> Covered(own, at) by {
      if InCommentOf(nodes[i], at) {
        var other :| AreComments(nodes[i].value, other) && Covered(Shifted(other, nodes[i].offset), at);
        CommentsAreUnique(nodes[i].value, cs, other);
      }
    }
    InSomeOf(nodes, i, at);
  }

  lemma InSomeOf(nodes: seq<HtmlNode>, i: nat, at: nat)
    requires i < |nodes|
    ensures InSomeComment(nodes[..i + 1], at) <==> InSomeComment(nodes[..i], at) || InCommentOf(nodes[i], at)
  {
    assert nodes[..i + 1] == nodes[..i] + [nodes[i]];
    if InSomeComment(nodes[..i], at) {
      var k :| 0 <= k < i && InCommentOf(nodes[..i][k], at);
      assert InCommentOf(nodes[..i + 1][k], at);
    }
    if InCommentOf(nodes[i], at) {
      assert InCommentOf(nodes[..i + 1][i], at);
    }
  }

  ghost function InComments(nodes: seq<HtmlNode>): nat -> bool {
    (at: nat) => InSomeComment(nodes, at)
  }

  // markdownProseLines from the HTML nodes: it masks exactly their comments.
  method MarkdownProseLines(source: string, nodes: seq<HtmlNode>, fenced: set<nat>) returns (kept: seq<ProseLine>)
    ensures kept == Kept(source, InComments(nodes), fenced, |SplitLines(source)|)
  {
    var comments := DocumentComments(nodes);
    kept := ProseLines(source, comments, fenced);
    SameMaskKeeps(source, CoveredBy(comments), InComments(nodes), fenced, |SplitLines(source)|);
  }

  // ---- Text the parser has altered ----

  // The line of a text on which a position is: as many newlines stand before it.
  function LineOf(s: string, p: nat): nat
    requires p <= |s|
  {
    multiset(s[..p])['\n']
  }

  lemma NextLineOf(s: string, p: nat)
    requires p < |s|
    ensures LineOf(s, p + 1) == if s[p] == '\n' then LineOf(s, p) + 1 else LineOf(s, p)
  {
    assert s[..p + 1] == s[..p] + [s[p]];
  }

  // Characters the parser has stripped from the starts of the lines up to this one, such as the
  // marks of a block quote. Those of the first line the offset of the node accounts for.
  function Stripped(marks: nat -> string, line: nat): nat {
    if line == 0 then 0 else Stripped(marks, line - 1) + |marks(line)|
  }

  // Where a character of the node's text stands in the source.
  function SourceOffset(node: HtmlNode, marks: nat -> string, p: nat): nat
    requires p <= |node.value|
  {
    node.offset + p + Stripped(marks, LineOf(node.value, p))
  }

  // The source of the first p characters of a text: behind each newline stands the next line's mark.
  function Marked(s: string, marks: nat -> string, p: nat): string
    requires p <= |s|
  {
    if p == 0 then ""
    else if s[p - 1] == '\n' then Marked(s, marks, p - 1) + "\n" + marks(LineOf(s, p))
    else Marked(s, marks, p - 1) + [s[p - 1]]
  }

  lemma {:induction false} MarkedLength(s: string, marks: nat -> string, p: nat)
    requires p <= |s|
    ensures |Marked(s, marks, p)| == p + Stripped(marks, LineOf(s, p))
  {
    if p > 0 {
      MarkedLength(s, marks, p - 1);
      NextLineOf(s, p - 1);
    }
  }

  lemma {:induction false} MarkedAt(s: string, marks: nat -> string, p: nat, n: nat)
    requires p < n <= |s|
    ensures |Marked(s, marks, p)| < |Marked(s, marks, n)|
    ensures Marked(s, marks, n)[|Marked(s, marks, p)|] == s[p]
  {
    if p < n - 1 { MarkedAt(s, marks, p, n - 1); }
  }

  // A character of the node's text is the one at its source offset.
  lemma SourceHasText(before: string, node: HtmlNode, marks: nat -> string, after: string, p: nat)
    requires |before| == node.offset && p < |node.value|
    ensures var source := before + Marked(node.value, marks, |node.value|) + after;
      SourceOffset(node, marks, p) < |source| && source[SourceOffset(node, marks, p)] == node.value[p]
  {
    MarkedLength(node.value, marks, p);
    MarkedAt(node.value, marks, p, |node.value|);
  }

  lemma {:induction false} MoreStripped(node: HtmlNode, marks: nat -> string, p: nat, q: nat)
    requires p <= q <= |node.value|
    ensures Stripped(marks, LineOf(node.value, p)) <= Stripped(marks, LineOf(node.value, q))
  {
    if p < q {
      MoreStripped(node, marks, p, q - 1);
      NextLineOf(node.value, q - 1);
    }
  }

  // The interval masked for a comment covers all of it in the source exactly if nothing has been
  // stripped up to the line of its last character.
  lemma MaskCoversIff(node: HtmlNode, marks: nat -> string, c: Interval)
    requires c.start < c.end <= |node.value|
    ensures var mask := Interval(node.offset + c.start, node.offset + c.end);
      (forall p: nat :: p <= |node.value| && In(c, p) ==> In(mask, SourceOffset(node, marks, p)))
      <==> Stripped(marks, LineOf(node.value, c.end - 1)) == 0
  {
    var mask, last := Interval(node.offset + c.start, node.offset + c.end), c.end - 1;
    assert In(c, last) && In(mask, SourceOffset(node, marks, last))
           <==> Stripped(marks, LineOf(node.value, last)) == 0;
    forall p: nat | p <= |node.value| && In(c, p)
      ensures Stripped(marks, LineOf(node.value, p)) <= Stripped(marks, LineOf(node.value, last))
    {
      MoreStripped(node, marks, p, last);
    }
  }
}
