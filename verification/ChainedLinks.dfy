// Links whose rewrite is again in the wrong locale, in a repository and under a percent codec
// that meet everything asked of a context.
module ChainedLinks {
  import opened Splitting
  import opened RepositoryPaths
  import opened TranslationLinks
  import opened TranslationLinkProofs

  // ---- A codec that escapes what a URL gives a meaning ----

  predicate IsCode(c: char) { 'a' <= c <= 'd' }

  function Escape(c: char): string {
    if c == '%' then "%a" else if c == '?' then "%b" else if c == '#' then "%c" else if c == ':' then "%d" else [c]
  }

  function Unescape(code: char): char {
    if code == 'a' then '%' else if code == 'b' then '?' else if code == 'c' then '#' else ':'
  }

  function EncodeText(s: string): string {
    if s == "" then "" else Escape(s[0]) + EncodeText(s[1..])
  }

  function DecodeText(s: string): string {
    if s == "" then ""
    else if AtEscape(s) then [Unescape(s[1])] + DecodeText(s[2..])
    else [s[0]] + DecodeText(s[1..])
  }

  const SMALL_CODEC: Codec := Codec(DecodeText, EncodeText)

  lemma {:induction false} DecodeConcat(s: string, t: string)
    requires t == "" || !IsCode(t[0])
    ensures DecodeText(s + t) == DecodeText(s) + DecodeText(t)
    decreases |s|
  {
    if s == "" {
      assert s + t == t;
    } else if AtEscape(s) {
      DecodeConcat(s[2..], t);
      DecodeEscaped(s, t);
    } else {
      DecodeConcat(s[1..], t);
      DecodeUnescaped(s, t);
    }
  }

  lemma DecodeEscaped(s: string, t: string)
    requires AtEscape(s) && DecodeText(s[2..] + t) == DecodeText(s[2..]) + DecodeText(t)
    ensures DecodeText(s + t) == DecodeText(s) + DecodeText(t)
  {
    Tails(s, t, 2);
    Assoc([Unescape(s[1])], DecodeText(s[2..]), DecodeText(t));
  }

  lemma DecodeUnescaped(s: string, t: string)
    requires s != "" && !AtEscape(s) && (t == "" || !IsCode(t[0]))
    requires DecodeText(s[1..] + t) == DecodeText(s[1..]) + DecodeText(t)
    ensures DecodeText(s + t) == DecodeText(s) + DecodeText(t)
  {
    Tails(s, t, 1);
    NoNewEscape(s, t);
    Assoc([s[0]], DecodeText(s[1..]), DecodeText(t));
  }

  predicate AtEscape(s: string) {
    |s| > 1 && s[0] == '%' && IsCode(s[1])
  }

  lemma NoNewEscape(s: string, t: string)
    requires s != "" && !AtEscape(s) && (t == "" || !IsCode(t[0]))
    ensures !AtEscape(s + t)
  {
    assert |s| > 1 ==> (s + t)[1] == s[1];
    assert |s| == 1 && t != "" ==> (s + t)[1] == t[0];
  }

  lemma Tails(s: string, t: string, n: nat)
    requires n <= |s|
    ensures (s + t)[n..] == s[n..] + t
  {
  }

  lemma {:induction false} DecodeEncode(s: string, t: string)
    ensures DecodeText(EncodeText(s) + t) == s + DecodeText(t)
  {
    if s == "" {
      assert EncodeText(s) + t == t;
    } else {
      DecodeEncode(s[1..], t);
      DecodeEncodeNext(s[0], s[1..], t);
      FirstJoins(s, DecodeText(t));
    }
  }

  lemma DecodeEncodeNext(c: char, s: string, t: string)
    requires DecodeText(EncodeText(s) + t) == s + DecodeText(t)
    ensures DecodeText((Escape(c) + EncodeText(s)) + t) == [c] + (s + DecodeText(t))
  {
    Assoc(Escape(c), EncodeText(s), t);
    DecodeEscape(c, EncodeText(s) + t);
  }

  lemma FirstJoins(s: string, t: string)
    requires s != ""
    ensures [s[0]] + (s[1..] + t) == s + t
  {
  }

  lemma DecodeEscape(c: char, rest: string)
    ensures DecodeText(Escape(c) + rest) == [c] + DecodeText(rest)
  {
    var s := Escape(c) + rest;
    if |Escape(c)| == 2 {
      assert s[2..] == rest;
    } else {
      assert s[1..] == rest;
    }
  }

  lemma {:induction false} DecodePlain(s: string)
    requires !Contains(s, '%')
    ensures DecodeText(s) == s
  {
    if s != "" {
      assert s[0] != '%';
      assert forall i :: 0 <= i < |s[1..]| ==> s[1..][i] == s[i + 1];
      DecodePlain(s[1..]);
    }
  }

  lemma {:induction false} DecodePath(path: Segments)
    requires AllPlain(path)
    ensures DecodeText(EncodePath(SMALL_CODEC, path)) == Join(path)
  {
    if |path| == 1 {
      assert EncodeAll(SMALL_CODEC, path[1..]) == [];
      assert EncodeText(path[0]) + "" == EncodeText(path[0]);
      DecodeEncode(path[0], "");
      assert path[0] + "" == path[0];
    } else if |path| > 1 {
      var rest := EncodePath(SMALL_CODEC, path[1..]);
      DecodePath(path[1..]);
      EncodedSplits(path);
      DecodeEncode(path[0], "/" + rest);
      DecodeNext('/', rest);
      Assoc(path[0], "/", Join(path[1..]));
    }
  }

  lemma EncodedSplits(path: Segments)
    requires |path| > 1
    ensures EncodePath(SMALL_CODEC, path) == EncodeText(path[0]) + ("/" + EncodePath(SMALL_CODEC, path[1..]))
  {
    var all := EncodeAll(SMALL_CODEC, path);
    assert all[1..] == EncodeAll(SMALL_CODEC, path[1..]);
    assert |EncodeAll(SMALL_CODEC, path[1..])| > 0;
    Assoc(all[0], "/", Join(all[1..]));
  }

  ghost predicate IsSafe(s: string) {
    forall i :: 0 <= i < |s| ==> s[i] != '?' && s[i] != '#' && s[i] != ':'
  }

  lemma {:induction false} EncodedIsSafe(s: string)
    ensures IsSafe(EncodeText(s)) && (s != "" ==> EncodeText(s) != "" && (EncodeText(s)[0] == '/' <==> s[0] == '/'))
  {
    if s != "" {
      EncodedIsSafe(s[1..]);
      EscapeIsSafe(s[0]);
      SafeConcat(Escape(s[0]), EncodeText(s[1..]));
    }
  }

  lemma EscapeIsSafe(c: char)
    ensures IsSafe(Escape(c)) && Escape(c) != "" && (Escape(c)[0] == '/' <==> c == '/')
  {
  }

  lemma SafeConcat(s: string, t: string)
    requires IsSafe(s) && IsSafe(t)
    ensures IsSafe(s + t)
  {
  }

  lemma {:induction false} EncodedPathIsHarmless(path: Segments)
    requires path != [] && AllPlain(path)
    ensures Harmless(EncodePath(SMALL_CODEC, path)) && IsSafe(EncodePath(SMALL_CODEC, path))
  {
    EncodedIsSafe(path[0]);
    assert path[0][0] != '/';
    if |path| == 1 {
      assert EncodeAll(SMALL_CODEC, path[1..]) == [];
    } else {
      EncodedPathIsHarmless(path[1..]);
      EncodedSplits(path);
      SafeJoin(EncodeText(path[0]), EncodePath(SMALL_CODEC, path[1..]));
    }
  }

  lemma SafeJoin(s: string, t: string)
    requires IsSafe(s) && IsSafe(t) && s != "" && s[0] != '/'
    ensures IsSafe(s + ("/" + t)) && Harmless(s + ("/" + t))
  {
    var all := s + ("/" + t);
    assert forall i :: 0 <= i < |all| ==>
        all[i] == (if i < |s| then s[i] else if i == |s| then '/' else t[i - |s| - 1]);
  }

  lemma SmallCodecIsGood()
    ensures GoodCodec(SMALL_CODEC)
  {
    forall s ensures DecodeText(s + MD) == DecodeText(s) + MD && DecodeText(s + ZH_MD) == DecodeText(s) + ZH_MD {
      DecodeSuffix(s, MD);
      DecodeSuffix(s, ZH_MD);
    }
    forall path | path != [] && AllPlain(path)
      ensures Harmless(EncodePath(SMALL_CODEC, path))
      ensures DecodeText(EncodePath(SMALL_CODEC, path)) == Join(path)
      ensures DecodeText("./" + EncodePath(SMALL_CODEC, path)) == "./" + Join(path)
    {
      EncodedPathIsHarmless(path);
      DecodePath(path);
      DecodeHere(EncodePath(SMALL_CODEC, path));
    }
  }

  lemma DecodeSuffix(s: string, suffix: string)
    requires suffix == MD || suffix == ZH_MD
    ensures DecodeText(s + suffix) == DecodeText(s) + suffix
  {
    DecodeConcat(s, suffix);
    DecodePlain(suffix);
  }

  lemma DecodeHere(s: string)
    ensures DecodeText("./" + s) == "./" + DecodeText(s)
  {
    Assoc(".", "/", s);
    DecodeNext('.', "/" + s);
    DecodeNext('/', s);
    Assoc(".", "/", DecodeText(s));
  }

  lemma DecodeNext(c: char, rest: string)
    requires c != '%'
    ensures DecodeText([c] + rest) == [c] + DecodeText(rest)
  {
    assert ([c] + rest)[1..] == rest;
  }

  // ---- The repository ----

  predicate InRoot(path: Segments) {
    |path| == 1 && IsName(path[0]) && !Contains(path[0], '/')
  }

  // An English document in the root of a repository in which every root document is there and
  // every Markdown file counts as English.
  function ChainContext(): Context {
    Context([], false, InRoot, path => true, SMALL_CODEC)
  }

  lemma ChainContextIsGood()
    ensures GoodContext(ChainContext())
  {
    SmallCodecIsGood();
    forall path | ChainContext().isFile(path) ensures AllNames(path) {
      assert InRoot(path);
    }
  }

  lemma DocumentInRoot(name: string, suffix: string)
    requires !Contains(name, '/') && (suffix == MD || suffix == ZH_MD)
    ensures Walk([], Split(name + suffix)) == [name + suffix] && InRoot([name + suffix])
  {
    SuffixHasNoSlash(suffix);
    SplitAppend(name, suffix);
    SplitWhole(name);
    DocumentNameIsName(name, suffix);
    assert Split(name + suffix) == [] + [name + suffix];
    WalkToName([], [], name + suffix);
    assert forall i :: 0 <= i < |name + suffix| ==>
             (name + suffix)[i] == (if i < |name| then name[i] else suffix[i - |name|]);
  }

  ghost predicate PlainStem(stem: string) {
    stem != "" && forall i :: 0 <= i < |stem| ==> IsPlainChar(stem[i])
  }

  predicate IsPlainChar(c: char) {
    c != '?' && c != '#' && c != ':' && c != '/' && c != '%'
  }

  lemma PlainName(stem: string, suffix: string)
    requires PlainStem(stem) && (suffix == MD || suffix == ZH_MD || suffix == ".zh")
    ensures PlainStem(stem + suffix)
  {
    forall i | 0 <= i < |stem + suffix| ensures IsPlainChar((stem + suffix)[i]) {
      if i >= |stem| { assert (stem + suffix)[i] == suffix[i - |stem|]; }
    }
  }

  lemma PlainUrl(url: string)
    requires PlainStem(url)
    ensures UrlPath(url) == url && UrlSuffix(url) == "" && !IsExternalOrAbsolute(url) && DecodeText(url) == url
  {
    assert url + "" == url;
    UrlParts(url, "");
    DecodePlain(url);
  }

  lemma WrongInRoot(stem: string)
    requires PlainStem(stem)
    ensures IsViolation(ChainContext(), stem + ZH_MD) && Rewrite(ChainContext(), stem + ZH_MD) == stem + MD
  {
    var ctx, url := ChainContext(), stem + ZH_MD;
    PlainName(stem, ZH_MD);
    PlainUrl(url);
    DocumentInRoot(stem, ZH_MD);
    DocumentNameIsName(stem, ZH_MD);
    assert url[..|url| - |ZH_MD|] == stem;
    assert WithExtension([url], ZH_MD, MD) == [stem + MD];
    ZhMdToMd([url]);
    assert |stem + MD| != |url|;
    assert (stem + MD) + "" == stem + MD;
  }

  // The rewritten link to a document with the suffix twice is again in the wrong locale.
  lemma ChainedLinkStaysWrong(stem: string)
    requires PlainStem(stem)
    ensures var ctx, url := ChainContext(), stem + ".zh" + ZH_MD;
      && IsViolation(ctx, url) && Rewrite(ctx, url) == stem + ZH_MD
      && IsViolation(ctx, Rewrite(ctx, url))
  {
    PlainName(stem, ".zh");
    WrongInRoot(stem + ".zh");
    WrongInRoot(stem);
    SuffixesJoin(stem);
  }

  lemma SuffixesJoin(stem: string)
    ensures stem + ".zh" + MD == stem + ZH_MD
  {
  }
}
