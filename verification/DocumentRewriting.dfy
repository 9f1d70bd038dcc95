// rewriteTranslationLinkLocales on a whole document.
module DocumentRewriting {
  import opened Options
  import opened Sorting
  import opened TranslationLinks
  import opened TranslationLinkProofs
  import opened LinkRewriting

  // A parsed document: its link destinations and the text between them.
  datatype Chunk = Prose(text: string) | Link(url: string)

  // What a visitor of the links does: leave a destination, or replace it by another.
  type Correction = string -> Option<string>

  ghost predicate LeavesEmpty(fix: Correction) {
    fix("").None?
  }

  function Own(c: Chunk): string {
    if c.Prose? then c.text else c.url
  }

  function Correct(fix: Correction, c: Chunk): Option<string> {
    if c.Prose? then None else fix(c.url)
  }

  function Render(doc: seq<Chunk>): string {
    if doc == [] then "" else Own(doc[0]) + Render(doc[1..])
  }

  // The replacements for the corrected links of a document that starts at an offset.
  function Replacements(fix: Correction, doc: seq<Chunk>, at: nat): seq<Replacement> {
    if doc == [] then []
    else
      var next := at + |Own(doc[0])|;
      var rest := Replacements(fix, doc[1..], next);
      match Correct(fix, doc[0])
      case Some(url) => [Replacement(at, next, url)] + rest
      case None => rest
  }

  function CorrectAll(fix: Correction, doc: seq<Chunk>): seq<Chunk> {
    if doc == [] then []
    else [if Correct(fix, doc[0]).Some? then Link(Correct(fix, doc[0]).value) else doc[0]] + CorrectAll(fix, doc[1..])
  }

  // The destinations that are corrected.
  function Corrected(fix: Correction, doc: seq<Chunk>): seq<string> {
    if doc == [] then []
    else (if Correct(fix, doc[0]).Some? then [Own(doc[0])] else []) + Corrected(fix, doc[1..])
  }

  lemma {:induction false} ReplacementsLieAhead(fix: Correction, doc: seq<Chunk>, at: nat, i: nat)
    requires LeavesEmpty(fix) && i < |Replacements(fix, doc, at)|
    ensures at <= Replacements(fix, doc, at)[i].start < Replacements(fix, doc, at)[i].end <= at + |Render(doc)|
  {
    var next := at + |Own(doc[0])|;
    if Correct(fix, doc[0]).None? {
      ReplacementsLieAhead(fix, doc[1..], next, i);
    } else if i > 0 {
      ReplacementsLieAhead(fix, doc[1..], next, i - 1);
    }
  }

  lemma {:induction false} ReplacementsAscend(fix: Correction, doc: seq<Chunk>, at: nat, i: nat, j: nat)
    requires LeavesEmpty(fix) && i < j < |Replacements(fix, doc, at)|
    ensures Replacements(fix, doc, at)[i].end <= Replacements(fix, doc, at)[j].start
  {
    var next := at + |Own(doc[0])|;
    if Correct(fix, doc[0]).None? {
      ReplacementsAscend(fix, doc[1..], next, i, j);
    } else if i > 0 {
      ReplacementsAscend(fix, doc[1..], next, i - 1, j - 1);
    } else {
      ReplacementsLieAhead(fix, doc[1..], next, j - 1);
    }
  }

  ghost predicate IsCorrected(fix: Correction, doc: seq<Chunk>, text: string, at: nat) {
    && at <= |text| && Ascending(text, Replacements(fix, doc, at), at)
    && Substitute(text, Replacements(fix, doc, at), at) == Render(CorrectAll(fix, doc))
  }

  // Substituting them corrects every such link and nothing else.
  lemma SubstituteCorrects(fix: Correction, doc: seq<Chunk>, text: string, at: nat)
    requires LeavesEmpty(fix) && at <= |text| && text[at..] == Render(doc)
    ensures Ascending(text, Replacements(fix, doc, at), at)
    ensures Substitute(text, Replacements(fix, doc, at), at) == Render(CorrectAll(fix, doc))
  {
    CorrectsAhead(fix, doc, text, at);
  }

  lemma {:induction false} CorrectsAhead(fix: Correction, doc: seq<Chunk>, text: string, at: nat)
    requires LeavesEmpty(fix) && at <= |text| && text[at..] == Render(doc)
    ensures IsCorrected(fix, doc, text, at)
  {
    if doc != [] {
      var rest, next := doc[1..], at + |Own(doc[0])|;
      TextAhead(text, at, Own(doc[0]), Render(rest));
      CorrectsAhead(fix, rest, text, next);
      if Correct(fix, doc[0]).Some? {
        SubstituteCorrected(fix, doc, text, at, Correct(fix, doc[0]).value);
      } else {
        SubstituteKept(fix, doc, text, at);
      }
    }
  }

  lemma SubstituteCorrected(fix: Correction, doc: seq<Chunk>, text: string, at: nat, url: string)
    requires doc != [] && Correct(fix, doc[0]) == Some(url) && at <= |text|
    requires IsCorrected(fix, doc[1..], text, at + |Own(doc[0])|)
    ensures IsCorrected(fix, doc, text, at)
  {
    var next := at + |Own(doc[0])|;
    SubstituteFirst(text, Replacement(at, next, url), Replacements(fix, doc[1..], next));
    RenderNext(Link(url), CorrectAll(fix, doc[1..]));
  }

  lemma SubstituteKept(fix: Correction, doc: seq<Chunk>, text: string, at: nat)
    requires LeavesEmpty(fix) && doc != [] && Correct(fix, doc[0]).None? && at + |Own(doc[0])| <= |text|
    requires text[at..at + |Own(doc[0])|] == Own(doc[0])
    requires IsCorrected(fix, doc[1..], text, at + |Own(doc[0])|)
    ensures IsCorrected(fix, doc, text, at)
  {
    var next := at + |Own(doc[0])|;
    var rs := Replacements(fix, doc[1..], next);
    if rs != [] { ReplacementsLieAhead(fix, doc[1..], next, 0); }
    SubstituteSkips(text, rs, at, next);
    RenderNext(doc[0], CorrectAll(fix, doc[1..]));
  }

  // The text of a document is that of its parts, one behind the other.
  lemma {:induction false} RenderConcat(a: seq<Chunk>, b: seq<Chunk>)
    ensures Render(a + b) == Render(a) + Render(b)
  {
    if a == [] {
      assert a + b == b;
    } else {
      assert a + b == [a[0]] + (a[1..] + b) && a == [a[0]] + a[1..];
      RenderNext(a[0], a[1..] + b);
      RenderConcat(a[1..], b);
    }
  }

  lemma RenderOne(c: Chunk)
    ensures Render([c]) == if c.Prose? then c.text else c.url
  {
    assert [c] == [c] + [];
    RenderNext(c, []);
  }

  lemma RenderNext(c: Chunk, rest: seq<Chunk>)
    ensures Render([c] + rest) == Own(c) + Render(rest)
  {
    assert ([c] + rest)[1..] == rest;
  }

  lemma SubstituteSkips(text: string, rs: seq<Replacement>, at: nat, next: nat)
    requires at <= next <= |text| && Ascending(text, rs, next) && (rs == [] || next <= rs[0].start)
    ensures Ascending(text, rs, at)
    ensures Substitute(text, rs, at) == text[at..next] + Substitute(text, rs, next)
  {
    AscendingEarlier(text, rs, next, at);
    SubstitutePrefix(text, rs, at, next);
  }

  lemma TextAhead(text: string, at: nat, own: string, rest: string)
    requires at <= |text| && text[at..] == own + rest
    ensures at + |own| <= |text| && text[at..at + |own|] == own && text[at + |own|..] == rest
  {
    assert text[at..at + |own|] == text[at..][..|own|];
    assert text[at + |own|..] == text[at..][|own|..];
  }

  lemma SubstituteFirst(text: string, r: Replacement, rs: seq<Replacement>)
    requires r.start <= r.end <= |text| && Ascending(text, rs, r.end)
    ensures Ascending(text, [r] + rs, r.start)
    ensures Substitute(text, [r] + rs, r.start) == r.value + Substitute(text, rs, r.end)
  {
    assert ([r] + rs)[1..] == rs;
    assert text[r.start..r.start] + r.value == r.value;
  }

  lemma AscendingEarlier(text: string, rs: seq<Replacement>, from: nat, earlier: nat)
    requires Ascending(text, rs, from) && earlier <= from
    ensures Ascending(text, rs, earlier)
  {
  }

  // ---- Sorting them changes nothing ----

  lemma {:induction false} ReversedMultiset<T>(s: seq<T>)
    ensures multiset(Reversed(s)) == multiset(s)
  {
    if s != [] {
      ReversedMultiset(s[1..]);
      assert s == [s[0]] + s[1..];
    }
  }

  lemma ReplacementsApart(fix: Correction, doc: seq<Chunk>)
    requires LeavesEmpty(fix)
    ensures StrictlyAhead(Replacements(fix, doc, 0), |Render(doc)|)
  {
    var rs := Replacements(fix, doc, 0);
    forall i | 0 <= i < |rs| ensures rs[i].start < rs[i].end <= |Render(doc)| {
      ReplacementsLieAhead(fix, doc, 0, i);
    }
    forall i, j | 0 <= i < j < |rs| ensures rs[i].end <= rs[j].start {
      ReplacementsAscend(fix, doc, 0, i, j);
    }
  }

  ghost predicate StrictlyAhead(rs: seq<Replacement>, length: nat) {
    && (forall i :: 0 <= i < |rs| ==> rs[i].start < rs[i].end <= length)
    && (forall i, j :: 0 <= i < j < |rs| ==> rs[i].end <= rs[j].start)
  }

  lemma AheadIsDisjoint(text: string, rs: seq<Replacement>)
    requires StrictlyAhead(rs, |text|)
    ensures Disjoint(text, rs)
  {
    forall i, j | 0 <= i < |rs| && 0 <= j < |rs| && i != j ensures Apart(rs[i], rs[j]) {
      if i < j { assert rs[i].end <= rs[j].start; } else { assert rs[j].end <= rs[i].start; }
    }
  }

  lemma SortingUndone(rs: seq<Replacement>, length: nat)
    requires StrictlyAhead(rs, length)
    ensures Reversed(Sort(ByDescendingStart, rs)) == rs
  {
    ReversedIsSorted(rs);
    var sorted := Sort(ByDescendingStart, rs);
    SortSorts(ByDescendingStart, rs);
    ReversedMultiset(rs);
    SortKeepsMembers(ByDescendingStart, rs);
    forall a, b | a in sorted && b in sorted && ByDescendingStart(a, b) && ByDescendingStart(b, a) ensures a == b {
      SameStart(rs, length, a, b);
    }
    SortedIsUnique(ByDescendingStart, sorted, Reversed(rs));
    ReversedTwice(rs);
  }

  lemma SameStart(rs: seq<Replacement>, length: nat, a: Replacement, b: Replacement)
    requires StrictlyAhead(rs, length) && a in rs && b in rs && a.start == b.start
    ensures a == b
  {
    var i :| 0 <= i < |rs| && rs[i] == a;
    var j :| 0 <= j < |rs| && rs[j] == b;
  }

  lemma ReversedIsSorted(rs: seq<Replacement>)
    requires forall i, j :: 0 <= i < j < |rs| ==> rs[i].end <= rs[j].start
    requires forall i :: 0 <= i < |rs| ==> rs[i].start <= rs[i].end
    ensures Sorted(ByDescendingStart, Reversed(rs))
  {
  }

  lemma ReversedTwice<T>(s: seq<T>)
    ensures Reversed(Reversed(s)) == s
  {
  }

  // ---- The rewrite of a document ----

  function LocaleFix(ctx: Context): Correction {
    (url: string) => if IsViolation(ctx, url) then Some(Rewrite(ctx, url)) else None
  }

  method Splice(fix: Correction, doc: seq<Chunk>) returns (content: string, rewritten: nat)
    requires LeavesEmpty(fix)
    ensures content == Render(CorrectAll(fix, doc)) && rewritten == |Corrected(fix, doc)|
  {
    var markdown, replacements := Render(doc), Replacements(fix, doc, 0);
    ReplacementsApart(fix, doc);
    AheadIsDisjoint(markdown, replacements);
    SortingUndone(replacements, |markdown|);
    SubstituteCorrects(fix, doc, markdown, 0);
    content := ApplyReplacements(markdown, replacements);
    OneReplacementEach(fix, doc, 0);
    rewritten := |replacements|;
  }

  lemma {:induction false} OneReplacementEach(fix: Correction, doc: seq<Chunk>, at: nat)
    ensures |Replacements(fix, doc, at)| == |Corrected(fix, doc)|
  {
    if doc != [] {
      OneReplacementEach(fix, doc[1..], at + |Own(doc[0])|);
    }
  }

  lemma EmptyUrlIsLeft(ctx: Context)
    ensures LeavesEmpty(LocaleFix(ctx))
  {
    assert UrlPath("") == "";
  }

  // Every wrong-locale link gets its expected URL and every other byte stays.
  method RewriteTranslationLinkLocales(ctx: Context, doc: seq<Chunk>) returns (content: string, rewritten: nat)
    ensures content == Render(CorrectAll(LocaleFix(ctx), doc))
    ensures rewritten == |Corrected(LocaleFix(ctx), doc)|
  {
    EmptyUrlIsLeft(ctx);
    content, rewritten := Splice(LocaleFix(ctx), doc);
  }

  // Some correction of a link of the document has to be corrected again.
  ghost predicate CorrectsTwice(fix: Correction, doc: seq<Chunk>) {
    exists c :: c in doc && Correct(fix, c).Some? && fix(Correct(fix, c).value).Some?
  }

  lemma {:induction false} CorrectedIsClean(fix: Correction, doc: seq<Chunk>)
    ensures Corrected(fix, CorrectAll(fix, doc)) == [] <==> !CorrectsTwice(fix, doc)
  {
    if doc != [] {
      var c, rest := doc[0], doc[1..];
      CorrectedIsClean(fix, rest);
      assert CorrectAll(fix, doc)[1..] == CorrectAll(fix, rest);
      assert doc == [c] + rest;
      assert CorrectsTwice(fix, doc) <==>
        CorrectsTwice(fix, rest) || (Correct(fix, c).Some? && fix(Correct(fix, c).value).Some?);
    }
  }

  lemma {:induction false} CleanStays(fix: Correction, doc: seq<Chunk>)
    requires Corrected(fix, doc) == []
    ensures CorrectAll(fix, doc) == doc
  {
    if doc != [] {
      CleanStays(fix, doc[1..]);
      assert doc == [doc[0]] + doc[1..];
    }
  }

  ghost predicate NoneChained(ctx: Context, doc: seq<Chunk>) {
    forall c :: c in doc && c.Link? && IsViolation(ctx, c.url) ==> !Chained(ctx, c.url)
  }

  lemma ChainedIsCorrectedTwice(ctx: Context, doc: seq<Chunk>)
    requires GoodContext(ctx)
    ensures CorrectsTwice(LocaleFix(ctx), doc) <==> !NoneChained(ctx, doc)
  {
    forall c | c in doc && c.Link? && IsViolation(ctx, c.url)
      ensures IsViolation(ctx, Rewrite(ctx, c.url)) <==> Chained(ctx, c.url)
    {
      RewriteIsClean(ctx, c.url);
    }
  }

  // A rewritten document has no wrong-locale link, exactly if no link leads to a document that
  // is English and Chinese at once; and then a second rewrite changes nothing.
  lemma RewrittenIsClean(ctx: Context, doc: seq<Chunk>)
    requires GoodContext(ctx)
    ensures var fix := LocaleFix(ctx);
      && (Corrected(fix, CorrectAll(fix, doc)) == [] <==> NoneChained(ctx, doc))
      && (NoneChained(ctx, doc) ==> CorrectAll(fix, CorrectAll(fix, doc)) == CorrectAll(fix, doc))
  {
    ChainedIsCorrectedTwice(ctx, doc);
    CorrectedIsClean(LocaleFix(ctx), doc);
    if NoneChained(ctx, doc) {
      CleanStays(LocaleFix(ctx), CorrectAll(LocaleFix(ctx), doc));
    }
  }
}
