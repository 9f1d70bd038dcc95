// What rewriting a wrong-locale link achieves.
module TranslationLinkProofs {
  import opened Options
  import opened RepositoryPaths
  import opened TranslationLinks

  // ---- URLs ----

  ghost predicate NoTargetEnd(s: string) {
    forall i :: 0 <= i < |s| ==> s[i] != '?' && s[i] != '#'
  }

  ghost predicate IsSuffix(s: string) {
    s != "" ==> s[0] == '?' || s[0] == '#'
  }

  lemma {:induction false} UrlParts(path: string, suffix: string)
    requires NoTargetEnd(path) && IsSuffix(suffix)
    ensures UrlPath(path + suffix) == path && UrlSuffix(path + suffix) == suffix
  {
    TargetEndAt(path, suffix);
  }

  lemma {:induction false} TargetEndAt(path: string, suffix: string)
    requires NoTargetEnd(path) && IsSuffix(suffix)
    ensures TargetEnd(path + suffix) == |path|
  {
    if path == "" {
      assert path + suffix == suffix;
    } else {
      assert (path + suffix)[1..] == path[1..] + suffix;
      TargetEndAt(path[1..], suffix);
    }
  }

  lemma UrlSplits(url: string)
    ensures NoTargetEnd(UrlPath(url)) && IsSuffix(UrlSuffix(url)) && UrlPath(url) + UrlSuffix(url) == url
  {
  }

  // Swapping the document suffix of the path makes no URL external.
  lemma ResuffixStaysInside(stem: string, from: string, to: string, suffix: string)
    requires (from == MD && to == ZH_MD) || (from == ZH_MD && to == MD)
    requires IsSuffix(suffix) && !IsExternalOrAbsolute(stem + from + suffix)
    ensures !IsExternalOrAbsolute(stem + to + suffix)
  {
    var before, after := stem + from + suffix, stem + to + suffix;
    assert stem == "" ==> after[0] == '.';
    assert stem != "" ==> after[0] == before[0] == stem[0];
    SchemeIsShared(stem, from, to, suffix);
  }

  lemma SchemeIsShared(stem: string, from: string, to: string, suffix: string)
    requires (to == MD || to == ZH_MD) && IsSuffix(suffix)
    ensures HasScheme(stem + to + suffix) ==> HasScheme(stem + from + suffix)
  {
    var before, after := stem + from + suffix, stem + to + suffix;
    if HasScheme(after) {
      var k :| 0 < k < |after| && after[k] == ':' && forall i :: 0 <= i < k ==> IsSchemeChar(after[i]);
      SchemeEndsInStem(stem, to, suffix, k);
      forall i | 0 <= i < k ensures IsSchemeChar(before[i]) { assert before[i] == after[i]; }
      assert before[k] == ':';
    }
  }

  lemma SchemeEndsInStem(stem: string, to: string, suffix: string, k: nat)
    requires to == MD || to == ZH_MD
    requires IsSuffix(suffix) && k < |stem + to + suffix| && (stem + to + suffix)[k] == ':'
    requires forall i :: 0 <= i < k ==> IsSchemeChar((stem + to + suffix)[i])
    ensures k < |stem|
  {
    var url := stem + to + suffix;
    assert forall i :: |stem| <= i < |stem| + |to| ==> url[i] == to[i - |stem|];
    assert suffix != "" ==> url[|stem| + |to|] == suffix[0];
  }

  lemma HarmlessStaysInside(path: string, suffix: string)
    requires Harmless(path) && IsSuffix(suffix)
    ensures !IsExternalOrAbsolute(path + suffix) && !IsExternalOrAbsolute("./" + path + suffix)
    ensures NoTargetEnd(path) && NoTargetEnd("./" + path)
  {
    var url := path + suffix;
    assert url[0] == path[0];
    assert forall i :: 0 <= i < |path| ==> url[i] == path[i];
    assert suffix != "" ==> url[|path|] == suffix[0];
    assert ("./" + path + suffix)[0] == '.';
  }

  // ---- Paths ----

  lemma DocumentNameIsName(l: string, suffix: string)
    requires suffix == MD || suffix == ZH_MD
    ensures IsName(l + suffix) && EndsWith(l + suffix, suffix) && !EndsWith(l + suffix, "/")
  {
    assert |l + suffix| >= 3;
    assert (l + suffix)[|l + suffix| - 1] == suffix[|suffix| - 1];
  }

  // A path that ends in a document suffix means a file with that suffix.
  lemma DocumentPathWalk(ctx: Context, stem: string, suffix: string)
    requires GoodContext(ctx) && (suffix == MD || suffix == ZH_MD)
    ensures var segments := Split(ctx.codec.decode(stem));
      Walk(ctx.directory, Split(ctx.codec.decode(stem + suffix)))
        == Walk(ctx.directory, segments[..|segments| - 1]) + [segments[|segments| - 1] + suffix]
    ensures !EndsWith(ctx.codec.decode(stem + suffix), "/")
  {
    var d := ctx.codec.decode(stem);
    var segments := Split(d);
    assert ctx.codec.decode(stem + suffix) == d + suffix;
    DocumentNameIsName(d, suffix);
    SuffixHasNoSlash(suffix);
    SplitAppend(d, suffix);
    DocumentNameIsName(segments[|segments| - 1], suffix);
    WalkToName(ctx.directory, segments[..|segments| - 1], segments[|segments| - 1] + suffix);
  }

  lemma SuffixHasNoSlash(suffix: string)
    requires suffix == MD || suffix == ZH_MD
    ensures !Contains(suffix, '/')
  {
  }

  // Swapping the document suffix of a path swaps the suffix of the file it means.
  lemma ResuffixedTarget(ctx: Context, stem: string, from: string, to: string)
    requires GoodContext(ctx)
    requires (from == MD && to == ZH_MD) || (from == ZH_MD && to == MD)
    ensures var target := Walk(ctx.directory, Split(ctx.codec.decode(stem + from)));
      && HasExtension(target, from)
      && Walk(ctx.directory, Split(ctx.codec.decode(stem + to))) == WithExtension(target, from, to)
    ensures !EndsWith(ctx.codec.decode(stem + to), "/")
  {
    DocumentPathWalk(ctx, stem, from);
    DocumentPathWalk(ctx, stem, to);
    var segments := Split(ctx.codec.decode(stem));
    var l := segments[|segments| - 1];
    DocumentNameIsName(l, from);
    assert (l + from)[..|l + from| - |from|] == l;
  }

  // A rebuilt relative path means the expected file.
  lemma RebuiltTarget(ctx: Context, expected: Segments, rawPath: string)
    requires GoodContext(ctx) && AllNames(expected) && expected != ctx.directory
    ensures var path := RelativeExpectedPath(ctx, expected, rawPath);
      && Walk(ctx.directory, Split(ctx.codec.decode(path))) == expected
      && !EndsWith(ctx.codec.decode(path), "/")
  {
    var rel := Relative(ctx.directory, expected);
    var path := RelativeExpectedPath(ctx, expected, rawPath);
    RelativeHasNoSlash(ctx.directory, expected);
    if rel == [] { RelativeIsEmptyOnlyAtHome(ctx.directory, expected); }
    assert AllPlain(rel);
    WalkRelative(ctx.directory, expected);
    if path == EncodePath(ctx.codec, rel) {
      SplitJoin(rel);
      JoinEndsPlain(rel);
    } else {
      WalkFromHere(ctx.directory, rel);
    }
  }

  // A leading `./` does not change what a relative path means.
  lemma WalkFromHere(directory: Segments, rel: Segments)
    requires rel != [] && AllPlain(rel)
    ensures Walk(directory, Split("./" + Join(rel))) == Walk(directory, rel) && !EndsWith("./" + Join(rel), "/")
  {
    SplitJoin(rel);
    SplitSlash(".", Join(rel));
    assert "." + "/" + Join(rel) == "./" + Join(rel);
    assert (["."] + rel)[1..] == rel;
    JoinEndsPlain(rel);
    assert ("./" + Join(rel))[|"./" + Join(rel)| - 1] == Join(rel)[|Join(rel)| - 1];
  }

  lemma {:induction false} JoinEndsPlain(path: Segments)
    requires path != [] && AllPlain(path)
    ensures Join(path) != "" && !EndsWith(Join(path), "/")
  {
    if |path| > 1 {
      forall i | 0 <= i < |path[1..]| ensures path[1..][i] != "" && !Contains(path[1..][i], '/') {
        assert path[1..][i] == path[i + 1];
      }
      JoinEndsPlain(path[1..]);
      var rest := Join(path[1..]);
      assert Join(path)[|Join(path)| - 1] == rest[|rest| - 1];
    } else {
      assert Join(path) == path[0];
      assert path[0][|path[0]| - 1] != '/';
    }
  }

  // ---- The rewritten link ----

  // The expected document is itself read as a translation: `x.zh.md` as the English document of
  // `x.zh.zh.md` and the Chinese document of `x.md` at once.
  ghost predicate Chained(ctx: Context, url: string)
    requires IsViolation(ctx, url)
  {
    var expected := ResolveLink(ctx, url).value.expected;
    && !ctx.zh && ctx.isFile(expected)
    && HasExtension(expected, ZH_MD) && ctx.isPairSource(WithExtension(expected, ZH_MD, MD))
  }

  // What makes a rewritten URL good: it splits into the new path and the old suffix, stays
  // internal, and its path means the expected file if that file exists.
  ghost predicate LeadsTo(ctx: Context, newPath: string, suffix: string, expected: Segments) {
    && UrlPath(newPath + suffix) == newPath && UrlSuffix(newPath + suffix) == suffix
    && (newPath == "" || !IsExternalOrAbsolute(newPath + suffix))
    && (newPath != "" ==> ResolveTarget(ctx, newPath) == if ctx.isFile(expected) then Some(expected) else None)
    && (newPath == "" ==> !ctx.isFile(expected))
  }

  lemma ResolvesIfExists(ctx: Context, path: string, expected: Segments)
    requires GoodContext(ctx)
    requires Walk(ctx.directory, Split(ctx.codec.decode(path))) == expected && !EndsWith(ctx.codec.decode(path), "/")
    requires expected != []
    ensures ResolveTarget(ctx, path) == if ctx.isFile(expected) then Some(expected) else None
  {
  }

  lemma ResuffixedLeads(ctx: Context, stem: string, from: string, to: string, suffix: string)
    requires GoodContext(ctx) && ((from == MD && to == ZH_MD) || (from == ZH_MD && to == MD))
    requires NoTargetEnd(stem) && IsSuffix(suffix) && !IsExternalOrAbsolute(stem + from + suffix)
    ensures var target := Walk(ctx.directory, Split(ctx.codec.decode(stem + from)));
      HasExtension(target, from) && LeadsTo(ctx, stem + to, suffix, WithExtension(target, from, to))
  {
    ResuffixedTarget(ctx, stem, from, to);
    var target := Walk(ctx.directory, Split(ctx.codec.decode(stem + from)));
    ResolvesIfExists(ctx, stem + to, WithExtension(target, from, to));
    ResuffixStaysInside(stem, from, to, suffix);
    NoTargetEndJoins(stem, to);
    UrlParts(stem + to, suffix);
  }

  lemma NoTargetEndJoins(stem: string, extension: string)
    requires NoTargetEnd(stem) && (extension == MD || extension == ZH_MD)
    ensures NoTargetEnd(stem + extension)
  {
    var all := stem + extension;
    forall i | 0 <= i < |all| ensures all[i] != '?' && all[i] != '#' {
      if i >= |stem| { assert all[i] == extension[i - |stem|]; }
    }
  }

  // A link to the directory itself means no file.
  lemma HomeLeads(ctx: Context, rawPath: string, suffix: string)
    requires GoodContext(ctx) && ctx.directory != [] && IsSuffix(suffix)
    ensures LeadsTo(ctx, RelativeExpectedPath(ctx, ctx.directory, rawPath), suffix, ctx.directory)
  {
    var path := RelativeExpectedPath(ctx, ctx.directory, rawPath);
    HomeIsEmpty(ctx.directory);
    assert path == "" || path == "./";
    UrlParts(path, suffix);
    assert path == "./" ==> EndsWith(ctx.codec.decode(path), "/") by { assert "./"[1..] == "/"; }
    assert path == "./" ==> (path + suffix)[0] == '.';
  }

  lemma RebuiltLeads(ctx: Context, expected: Segments, rawPath: string, suffix: string)
    requires GoodContext(ctx) && AllNames(expected) && expected != [] && IsSuffix(suffix)
    ensures LeadsTo(ctx, RelativeExpectedPath(ctx, expected, rawPath), suffix, expected)
  {
    var rel := Relative(ctx.directory, expected);
    var path := RelativeExpectedPath(ctx, expected, rawPath);
    if expected == ctx.directory {
      HomeLeads(ctx, rawPath, suffix);
    } else {
      RebuiltTarget(ctx, expected, rawPath);
      ResolvesIfExists(ctx, path, expected);
      RelativeHasNoSlash(ctx.directory, expected);
      if rel == [] { RelativeIsEmptyOnlyAtHome(ctx.directory, expected); }
      assert AllPlain(rel) && Harmless(EncodePath(ctx.codec, rel));
      HarmlessStaysInside(EncodePath(ctx.codec, rel), suffix);
      UrlParts(path, suffix);
    }
  }

  lemma {:induction false} HomeIsEmpty(path: Segments)
    ensures Relative(path, path) == []
  {
    SelfPrefix(path);
  }

  lemma {:induction false} SelfPrefix(path: Segments)
    ensures CommonPrefix(path, path) == |path|
  {
    if path != [] { SelfPrefix(path[1..]); }
  }

  lemma ExpectedIsNames(ctx: Context, url: string)
    requires GoodContext(ctx) && ResolveLink(ctx, url).Some?
    ensures AllNames(ResolveLink(ctx, url).value.expected) && ResolveLink(ctx, url).value.expected != []
  {
    var target := ResolveTarget(ctx, UrlPath(url)).value;
    var source := PairSource(ctx, target).value;
    if HasExtension(target, ZH_MD) { ResuffixKeepsNames(target, ZH_MD, MD); }
    if ctx.zh { ResuffixKeepsNames(source, MD, ZH_MD); }
  }

  lemma ResuffixKeepsNames(path: Segments, from: string, to: string)
    requires HasExtension(path, from) && AllNames(path) && (to == MD || to == ZH_MD)
    ensures AllNames(WithExtension(path, from, to))
  {
    var last := path[|path| - 1];
    var stem := last[..|last| - |from|];
    DocumentNameIsName(stem, to);
    SuffixHasNoSlash(to);
    assert !Contains(stem + to, '/') by {
      forall i | 0 <= i < |stem + to| ensures (stem + to)[i] != '/' {
        if i < |stem| { assert (stem + to)[i] == last[i]; } else { assert (stem + to)[i] == to[i - |stem|]; }
      }
    }
  }

  // The new path of a violating link leads to its expected document.
  lemma ExpectedPathLeads(ctx: Context, url: string)
    requires GoodContext(ctx) && IsViolation(ctx, url)
    ensures var r := ResolveLink(ctx, url).value;
      LeadsTo(ctx, ExpectedLocalePath(ctx, UrlPath(url), r.expected), UrlSuffix(url), r.expected)
  {
    var raw, suffix, r := UrlPath(url), UrlSuffix(url), ResolveLink(ctx, url).value;
    UrlSplits(url);
    ExpectedIsNames(ctx, url);
    if ctx.zh && EndsWith(raw, MD) && !EndsWith(raw, ZH_MD) {
      var stem := raw[..|raw| - |MD|];
      assert stem + MD == raw;
      ResuffixedLeads(ctx, stem, MD, ZH_MD, suffix);
      ZhViolation(ctx, url);
    } else if !ctx.zh && EndsWith(raw, ZH_MD) {
      var stem := raw[..|raw| - |ZH_MD|];
      assert stem + ZH_MD == raw;
      ResuffixedLeads(ctx, stem, ZH_MD, MD, suffix);
    } else {
      RebuiltLeads(ctx, r.expected, raw, suffix);
    }
  }

  // In a Chinese document only a link to an English document is in the wrong locale.
  lemma ZhViolation(ctx: Context, url: string)
    requires ctx.zh && IsViolation(ctx, url)
    ensures var r := ResolveLink(ctx, url).value;
      HasExtension(r.target, MD) && !HasExtension(r.target, ZH_MD) && r.expected == WithExtension(r.target, MD, ZH_MD)
  {
    var r := ResolveLink(ctx, url).value;
    ZhTargetIsExpected(ctx, r.target);
  }

  // A Chinese target is paired with the English document from which it is expected.
  lemma ZhTargetIsExpected(ctx: Context, target: Segments)
    ensures ctx.zh && HasExtension(target, ZH_MD) && PairSource(ctx, target).Some? ==>
              ExpectedTarget(ctx, PairSource(ctx, target).value) == target
  {
    if HasExtension(target, ZH_MD) {
      ResuffixEnds(target[|target| - 1], ZH_MD, MD);
      var source := WithExtension(target, ZH_MD, MD);
      assert source[..|source| - 1] == target[..|target| - 1];
    }
  }

  // The rewritten link is in order, exactly unless the expected document is chained; and its
  // query and fragment are those of the old one.
  lemma RewriteIsClean(ctx: Context, url: string)
    requires GoodContext(ctx) && IsViolation(ctx, url)
    ensures IsViolation(ctx, Rewrite(ctx, url)) <==> Chained(ctx, url)
    ensures UrlSuffix(Rewrite(ctx, url)) == UrlSuffix(url)
  {
    var r := ResolveLink(ctx, url).value;
    ExpectedPathLeads(ctx, url);
    LeadingIsViolation(ctx, ExpectedLocalePath(ctx, UrlPath(url), r.expected), UrlSuffix(url), r.expected);
    ReadBack(ctx, url);
  }

  // Whether a link that means a document is in the wrong locale.
  lemma LeadingIsViolation(ctx: Context, path: string, suffix: string, e: Segments)
    requires LeadsTo(ctx, path, suffix, e)
    ensures IsViolation(ctx, path + suffix)
       <==> ctx.isFile(e) && PairSource(ctx, e).Some? && ExpectedTarget(ctx, PairSource(ctx, e).value) != e
  {
  }

  // How the expected document is resolved from the same source document.
  lemma ReadBack(ctx: Context, url: string)
    requires GoodContext(ctx) && IsViolation(ctx, url)
    ensures var e := ResolveLink(ctx, url).value.expected;
      ctx.isFile(e) ==>
        (PairSource(ctx, e).Some? && ExpectedTarget(ctx, PairSource(ctx, e).value) != e <==> Chained(ctx, url))
  {
    var r := ResolveLink(ctx, url).value;
    if ctx.zh {
      ZhViolation(ctx, url);
      BackFromZh(ctx, r.target);
    } else if HasExtension(r.expected, ZH_MD) {
      EnglishDiffers(r.expected);
    }
  }

  lemma BackFromZh(ctx: Context, target: Segments)
    requires ctx.zh && HasExtension(target, MD) && ctx.isPairSource(target)
    ensures var e := WithExtension(target, MD, ZH_MD);
      PairSource(ctx, e) == Some(target) && ExpectedTarget(ctx, target) == e
  {
    ResuffixEnds(target[|target| - 1], MD, ZH_MD);
    assert WithExtension(WithExtension(target, MD, ZH_MD), ZH_MD, MD) == target;
  }

  lemma EnglishDiffers(e: Segments)
    requires HasExtension(e, ZH_MD)
    ensures WithExtension(e, ZH_MD, MD) != e
  {
    var back := WithExtension(e, ZH_MD, MD);
    assert |back[|back| - 1]| < |e[|e| - 1]|;
  }
}
