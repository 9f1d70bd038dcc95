// White space, trimming and the words of a text.
module Whitespace {
  import opened Splitting

  // The characters `trim` removes.
  predicate IsSpace(c: char) {
    || c == ' ' || '\t' <= c <= '\r' || c == '\U{A0}' || c == '\U{1680}' || '\U{2000}' <= c <= '\U{200A}'
    || c == '\U{2028}' || c == '\U{2029}' || c == '\U{202F}' || c == '\U{205F}' || c == '\U{3000}' || c == '\U{FEFF}'
  }

  function TrimStart(s: string): (r: string)
    ensures |r| <= |s| && (s != "" && IsSpace(s[0]) ==> |r| < |s|)
  {
    if s == "" || !IsSpace(s[0]) then s else TrimStart(s[1..])
  }

  function TrimEnd(s: string): string {
    if s == "" || !IsSpace(s[|s| - 1]) then s else TrimEnd(s[..|s| - 1])
  }

  function Trim(s: string): string {
    TrimEnd(TrimStart(s))
  }

  // Replaces every run of white space by one blank.
  function Collapse(s: string): string
    decreases |s|
  {
    if s == "" then ""
    else if IsSpace(s[0]) then " " + Collapse(TrimStart(s))
    else [s[0]] + Collapse(s[1..])
  }

  function WordEnd(s: string): (n: nat)
    ensures n <= |s| && (forall i :: 0 <= i < n ==> !IsSpace(s[i])) && (n < |s| ==> IsSpace(s[n]))
  {
    if s == "" || IsSpace(s[0]) then 0 else 1 + WordEnd(s[1..])
  }

  // The maximal runs of characters that are no white space, in order.
  function Words(s: string): seq<string>
    decreases |s|
  {
    if s == "" then []
    else if IsSpace(s[0]) then Words(s[1..])
    else
      assert WordEnd(s) > 0;
      [s[..WordEnd(s)]] + Words(s[WordEnd(s)..])
  }

  function WordsOf(parts: seq<string>): seq<string> {
    if parts == [] then [] else Words(parts[0]) + WordsOf(parts[1..])
  }

  lemma {:induction false} WordEndAt(s: string, n: nat)
    requires n <= |s| && (forall i :: 0 <= i < n ==> !IsSpace(s[i])) && (n < |s| ==> IsSpace(s[n]))
    ensures WordEnd(s) == n
  {
    if n > 0 { WordEndAt(s[1..], n - 1); }
  }

  // Words do not run across white space between two texts.
  lemma {:induction false} WordsConcat(s: string, t: string)
    requires t == "" || IsSpace(t[0])
    ensures Words(s + t) == Words(s) + Words(t)
    decreases |s|
  {
    if s == "" {
      assert s + t == t;
    } else if IsSpace(s[0]) {
      assert (s + t)[1..] == s[1..] + t;
      WordsConcat(s[1..], t);
    } else {
      var n := WordEnd(s);
      FirstWordOfConcat(s, t);
      WordsConcat(s[n..], t);
    }
  }

  lemma FirstWordOfConcat(s: string, t: string)
    requires t == "" || IsSpace(t[0])
    ensures var n := WordEnd(s);
      WordEnd(s + t) == n && (s + t)[..n] == s[..n] && (s + t)[n..] == s[n..] + t
  {
    var n, u := WordEnd(s), s + t;
    forall i | 0 <= i < n ensures !IsSpace(u[i]) { assert u[i] == s[i]; }
    if n < |s| { assert u[n] == s[n]; } else if t != "" { assert u[n] == t[0]; }
    WordEndAt(u, n);
    SliceConcat(s, t, n);
  }

  lemma SliceConcat(s: string, t: string, n: nat)
    requires n <= |s|
    ensures (s + t)[..n] == s[..n] && (s + t)[n..] == s[n..] + t
  {
  }

  lemma {:induction false} WordsTrimStart(s: string)
    ensures Words(TrimStart(s)) == Words(s)
  {
    if s != "" && IsSpace(s[0]) { WordsTrimStart(s[1..]); }
  }

  lemma {:induction false} WordsTrimEnd(s: string)
    ensures Words(TrimEnd(s)) == Words(s)
  {
    if s != "" && IsSpace(s[|s| - 1]) {
      var front, last := s[..|s| - 1], s[|s| - 1..];
      assert s == front + last;
      WordsConcat(front, last);
      assert last[1..] == "";
      assert Words(last) == Words("");
      WordsTrimEnd(front);
    }
  }

  lemma {:induction false} CollapseWord(s: string, n: nat)
    requires n <= WordEnd(s)
    ensures Collapse(s) == s[..n] + Collapse(s[n..])
  {
    if n > 0 {
      CollapseWord(s[1..], n - 1);
      CutOne(s, n);
      Assoc([s[0]], s[1..][..n - 1], Collapse(s[n..]));
    }
  }

  lemma CutOne(s: string, n: nat)
    requires 0 < n <= |s|
    ensures s[1..][n - 1..] == s[n..] && [s[0]] + s[1..][..n - 1] == s[..n]
  {
  }

  lemma {:induction false} WordsCollapse(s: string)
    ensures Words(Collapse(s)) == Words(s)
    decreases |s|
  {
    if s == "" {
    } else if IsSpace(s[0]) {
      var rest := TrimStart(s);
      WordsTrimStart(s);
      WordsCollapse(rest);
      assert (" " + Collapse(rest))[1..] == Collapse(rest);
    } else {
      var n := WordEnd(s);
      CollapseWord(s, n);
      WordsCollapse(s[n..]);
      WordsConcat(s[..n], Collapse(s[n..]));
      WordEndAt(s[..n], n);
      assert s[..n][..n] == s[..n] && s[..n][n..] == "";
    }
  }

  lemma WordsTrim(s: string)
    ensures Words(Trim(s)) == Words(s)
  {
    WordsTrimStart(s);
    WordsTrimEnd(TrimStart(s));
  }

  lemma {:induction false} WordsJoin(parts: seq<string>, separator: string)
    requires separator != "" && forall i :: 0 <= i < |separator| ==> IsSpace(separator[i])
    ensures Words(JoinWith(parts, separator)) == WordsOf(parts)
  {
    if |parts| == 1 {
      assert parts[1..] == [];
    } else if |parts| > 1 {
      var rest := JoinWith(parts[1..], separator);
      WordsJoin(parts[1..], separator);
      assert parts[0] + separator + rest == parts[0] + (separator + rest);
      WordsConcat(parts[0], separator + rest);
      WordsSkip(separator, rest);
    }
  }

  lemma {:induction false} WordsSkip(blank: string, rest: string)
    requires forall i :: 0 <= i < |blank| ==> IsSpace(blank[i])
    ensures Words(blank + rest) == Words(rest)
  {
    if blank == "" {
      assert blank + rest == rest;
    } else {
      assert (blank + rest)[1..] == blank[1..] + rest;
      WordsSkip(blank[1..], rest);
    }
  }

  lemma {:induction false} WordsOfConcat(a: seq<string>, b: seq<string>)
    ensures WordsOf(a + b) == WordsOf(a) + WordsOf(b)
  {
    if a == [] {
      assert a + b == b;
    } else {
      assert (a + b)[1..] == a[1..] + b;
      WordsOfConcat(a[1..], b);
    }
  }

  // ---- What these functions mean ----

  // White space and line terminators of the language, by code point.
  lemma SpacesAre(c: char)
    ensures IsSpace(c) <==> (c as int) in [0x09, 0x0A, 0x0B, 0x0C, 0x0D, 0x20, 0xA0, 0x1680, 0x2000, 0x2001, 0x2002,
                                           0x2003, 0x2004, 0x2005, 0x2006, 0x2007, 0x2008, 0x2009, 0x200A, 0x2028,
                                           0x2029, 0x202F, 0x205F, 0x3000, 0xFEFF]
  {
  }

  ghost predicate IsWord(w: string) {
    w != "" && forall c :: c in w ==> !IsSpace(c)
  }

  // These laws fix the words of every text.
  lemma WordsLaws(w: string, c: char, t: string)
    ensures Words("") == [] && (IsSpace(c) ==> Words([c] + t) == Words(t))
    ensures IsWord(w) && (t == "" || IsSpace(t[0])) ==> Words(w + t) == [w] + Words(t)
  {
    assert ([c] + t)[1..] == t;
    if IsWord(w) && (t == "" || IsSpace(t[0])) {
      var s := w + t;
      forall i | 0 <= i < |w| ensures !IsSpace(s[i]) { assert s[i] == w[i] && w[i] in w; }
      WordEndAt(s, |w|);
      assert s[..|w|] == w && s[|w|..] == t;
    }
  }

  ghost predicate AllSpace(s: string) {
    forall c :: c in s ==> IsSpace(c)
  }

  lemma {:induction false} TrimsToNothing(s: string)
    ensures Trim(s) == "" <==> AllSpace(s)
  {
    TrimStartLaw(s);
    TrimEndLaw(TrimStart(s));
  }

  // What is left does not start with white space, and what is cut off is white space.
  lemma {:induction false} TrimStartLaw(s: string)
    ensures TrimStart(s) == "" <==> AllSpace(s)
    ensures TrimStart(s) != "" ==> !IsSpace(TrimStart(s)[0])
  {
    if s != "" && IsSpace(s[0]) {
      TrimStartLaw(s[1..]);
      assert s == [s[0]] + s[1..];
    } else if s != "" {
      assert s[0] in s;
    }
  }

  lemma {:induction false} CutOff(s: string) returns (blank: string)
    ensures s == blank + TrimStart(s) && AllSpace(blank)
  {
    blank := "";
    if s != "" && IsSpace(s[0]) {
      blank := CutOff(s[1..]);
      blank := [s[0]] + blank;
    }
  }

  lemma {:induction false} TrimEndLaw(s: string)
    ensures s != "" && !IsSpace(s[0]) ==> TrimEnd(s) != ""
    ensures s == "" ==> TrimEnd(s) == ""
  {
    if s != "" && IsSpace(s[|s| - 1]) && !IsSpace(s[0]) {
      TrimEndLaw(s[..|s| - 1]);
    }
  }

  // Collapsed and trimmed, a text is its words with single blanks between them.
  lemma CollapsedText(s: string)
    ensures Trim(Collapse(s)) == JoinWith(Words(s), " ")
  {
    var body := JoinWith(Words(s), " ");
    CollapseShape(s);
    if Words(s) == [] {
      BlankTrims();
    } else {
      BodyIsTight(s);
      TrimsTo(Lead(s), body, Trail(s));
    }
  }

  lemma BlankTrims()
    ensures Trim("") == "" && Trim(" ") == ""
  {
    assert " "[1..] == "";
  }

  function Lead(s: string): string {
    if s != "" && IsSpace(s[0]) then " " else ""
  }

  function Trail(s: string): string {
    if s != "" && IsSpace(s[|s| - 1]) then " " else ""
  }

  lemma {:induction false} TrimsTo(lead: string, body: string, trail: string)
    requires (lead == "" || lead == " ") && (trail == "" || trail == " ")
    requires body != "" && !IsSpace(body[0]) && !IsSpace(body[|body| - 1])
    ensures Trim(lead + body + trail) == body
  {
    var s := lead + body + trail;
    assert TrimStart(body + trail) == body + trail by { assert (body + trail)[0] == body[0]; }
    if lead == " " {
      assert s[1..] == body + trail;
      assert TrimStart(s) == TrimStart(s[1..]);
    } else {
      assert s == body + trail;
    }
    assert TrimEnd(body) == body;
    if trail == " " {
      assert (body + trail)[..|body + trail| - 1] == body;
    } else {
      assert body + trail == body;
    }
  }

  lemma {:induction false} WordsAreWords(s: string)
    ensures forall w :: w in Words(s) ==> IsWord(w)
    decreases |s|
  {
    if s != "" {
      if IsSpace(s[0]) {
        WordsAreWords(s[1..]);
      } else {
        var n := WordEnd(s);
        WordsAreWords(s[n..]);
        assert IsWord(s[..n]);
      }
    }
  }

  lemma BodyIsTight(s: string)
    requires Words(s) != []
    ensures var body := JoinWith(Words(s), " ");
      body != "" && !IsSpace(body[0]) && !IsSpace(body[|body| - 1])
  {
    WordsAreWords(s);
    JoinIsTight(Words(s));
  }

  lemma {:induction false} JoinIsTight(words: seq<string>)
    requires words != [] && forall w :: w in words ==> IsWord(w)
    ensures var body := JoinWith(words, " ");
      body != "" && !IsSpace(body[0]) && !IsSpace(body[|body| - 1])
  {
    var first := words[0];
    assert first in words && first[0] in first && first[|first| - 1] in first;
    if |words| > 1 {
      JoinIsTight(words[1..]);
      var rest := JoinWith(words[1..], " ");
      var body := first + " " + rest;
      assert body[0] == first[0] && body[|body| - 1] == rest[|rest| - 1];
    }
  }

  lemma {:induction false} CollapseShape(s: string)
    ensures Words(s) == [] ==> Collapse(s) == "" || Collapse(s) == " "
    ensures Words(s) != [] ==> Collapse(s) == Lead(s) + JoinWith(Words(s), " ") + Trail(s)
    decreases |s|
  {
    if s != "" {
      if IsSpace(s[0]) {
        CollapseAfterSpace(s);
      } else {
        CollapseAfterWord(s);
      }
    }
  }

  lemma {:induction false} CollapseAfterSpace(s: string)
    requires s != "" && IsSpace(s[0])
    ensures Words(s) == [] ==> Collapse(s) == "" || Collapse(s) == " "
    ensures Words(s) != [] ==> Collapse(s) == Lead(s) + JoinWith(Words(s), " ") + Trail(s)
    decreases |s|, 0
  {
    var rest := TrimStart(s);
    TrimStartLaw(s);
    WordsTrimStart(s);
    CollapseShape(rest);
    var blank := CutOff(s);
    if rest != "" {
      assert s[|s| - 1] == rest[|rest| - 1];
      assert Lead(rest) == "" && Trail(rest) == Trail(s);
      assert WordEnd(rest) > 0;
      Assoc(" ", JoinWith(Words(s), " "), Trail(s));
      assert "" + JoinWith(Words(s), " ") == JoinWith(Words(s), " ");
    }
  }

  lemma {:induction false} CollapseAfterWord(s: string)
    requires s != "" && !IsSpace(s[0])
    ensures Words(s) != [] && Collapse(s) == Lead(s) + JoinWith(Words(s), " ") + Trail(s)
    decreases |s|, 0
  {
    var first, rest := FirstWord(s);
    CollapseShape(rest);
    if rest != "" && Words(rest) == [] { OnlySpace(rest); }
    JoinShape(first, Words(rest), Trail(s));
  }

  lemma FirstWord(s: string) returns (first: string, rest: string)
    requires s != "" && !IsSpace(s[0])
    ensures |rest| < |s| && (rest != "" ==> IsSpace(rest[0]))
    ensures Words(s) == [first] + Words(rest) && Collapse(s) == first + Collapse(rest)
    ensures Lead(s) == "" && Trail(s) == Trail(rest)
  {
    var n := WordEnd(s);
    assert n > 0;
    first, rest := s[..n], s[n..];
    CollapseWord(s, n);
    if rest != "" { assert s[|s| - 1] == rest[|rest| - 1]; }
  }

  lemma JoinShape(first: string, words: seq<string>, trail: string)
    ensures "" + JoinWith([first] + words, " ") + trail
         == first + if words == [] then trail else " " + JoinWith(words, " ") + trail
  {
    if words == [] {
      assert JoinWith([first] + words, " ") == first;
      assert "" + first + trail == first + trail;
    } else {
      JoinCons(first, words);
    }
  }

  lemma JoinCons(first: string, rest: seq<string>)
    requires rest != []
    ensures JoinWith([first] + rest, " ") == first + " " + JoinWith(rest, " ")
  {
    assert ([first] + rest)[1..] == rest;
  }

  // A text without words that starts with white space is white space throughout.
  lemma {:induction false} OnlySpace(s: string)
    requires s != "" && Words(s) == []
    ensures Collapse(s) == " " && IsSpace(s[|s| - 1])
  {
    TrimStartLaw(s);
    InkHasWords(s);
    assert s[|s| - 1] in s;
  }

  lemma InkHasWords(s: string)
    ensures TrimStart(s) != "" ==> Words(s) != []
  {
    WordsTrimStart(s);
    TrimStartLaw(s);
    if TrimStart(s) != "" { assert WordEnd(TrimStart(s)) > 0; }
  }
}
