// Which links are in the wrong locale and what becomes of them, by the names of the documents.
module WrongLocale {
  import opened Options
  import opened RepositoryPaths
  import opened TranslationLinks
  import opened TranslationLinkProofs

  ghost predicate IsSchemeName(s: string) {
    && s != "" && ('a' <= s[0] <= 'z' || 'A' <= s[0] <= 'Z')
    && forall c :: c in s ==> 'a' <= c <= 'z' || 'A' <= c <= 'Z' || '0' <= c <= '9' || c in "+.-"
  }

  // The URLs that are left alone: fragments, absolute paths and those with a scheme.
  lemma ExternalIff(url: string)
    ensures IsExternalOrAbsolute(url) <==>
            "#" <= url || "/" <= url || exists scheme, rest :: IsSchemeName(scheme) && url == scheme + ":" + rest
  {
    assert "#" <= url <==> url != "" && url[0] == '#';
    assert "/" <= url <==> url != "" && url[0] == '/';
    if HasScheme(url) {
      var k :| 0 < k < |url| && url[k] == ':' && forall i :: 0 <= i < k ==> IsSchemeChar(url[i]);
      assert url == url[..k] + ":" + url[k + 1..];
      assert IsSchemeName(url[..k]);
    }
    if scheme, rest :| IsSchemeName(scheme) && url == scheme + ":" + rest {
      SchemeInFront(scheme, rest);
    }
  }

  lemma SchemeInFront(scheme: string, rest: string)
    requires IsSchemeName(scheme)
    ensures HasScheme(scheme + ":" + rest)
  {
    var url, k := scheme + ":" + rest, |scheme|;
    assert url[0] == scheme[0] && url[k] == ':';
    forall i | 0 <= i < k ensures IsSchemeChar(url[i]) { assert url[i] == scheme[i] && scheme[i] in scheme; }
  }

  // A document of a directory, by its stem and its extension.
  ghost predicate IsDocument(path: Segments, directory: Segments, stem: string, extension: string) {
    path == directory + [stem + extension]
  }

  ghost predicate EndsIn(path: Segments, extension: string) {
    exists directory, stem :: IsDocument(path, directory, stem, extension)
  }

  // The name of the document ends in `.zh.md`, and with `.md` instead it is an English document of
  // a pair.
  ghost predicate IsChineseHalf(ctx: Context, path: Segments) {
    exists directory, stem :: IsDocument(path, directory, stem, ".zh.md")
      && ctx.isPairSource(directory + [stem + ".md"])
  }

  // The name of the document ends in `.md`, not in `.zh.md`, and it is an English document of a
  // pair.
  ghost predicate IsEnglishHalf(ctx: Context, path: Segments) {
    EndsIn(path, ".md") && !EndsIn(path, ".zh.md") && ctx.isPairSource(path)
  }

  lemma EndsInIff(path: Segments, extension: string)
    ensures EndsIn(path, extension) <==> HasExtension(path, extension)
  {
    if directory, stem :| IsDocument(path, directory, stem, extension) {
      assert path[|path| - 1] == stem + extension;
      assert (stem + extension)[|stem|..] == extension;
    }
    if HasExtension(path, extension) {
      var last := path[|path| - 1];
      assert last == last[..|last| - |extension|] + extension;
      assert path == path[..|path| - 1] + [last];
      assert IsDocument(path, path[..|path| - 1], last[..|last| - |extension|], extension);
    }
  }

  lemma OtherExtension(path: Segments, directory: Segments, stem: string, from: string, to: string)
    requires IsDocument(path, directory, stem, from)
    ensures HasExtension(path, from) && WithExtension(path, from, to) == directory + [stem + to]
  {
    var last := stem + from;
    assert path[|path| - 1] == last && path[..|path| - 1] == directory;
    assert last[|stem|..] == from && last[..|last| - |from|] == stem;
  }

  lemma ChineseHalfIff(ctx: Context, path: Segments)
    ensures IsChineseHalf(ctx, path)
       <==> HasExtension(path, ZH_MD) && ctx.isPairSource(WithExtension(path, ZH_MD, MD))
  {
    EndsInIff(path, ZH_MD);
    if directory, stem :| IsDocument(path, directory, stem, ".zh.md") && ctx.isPairSource(directory + [stem + ".md"]) {
      OtherExtension(path, directory, stem, ZH_MD, MD);
    }
    if HasExtension(path, ZH_MD) {
      var directory, stem :| IsDocument(path, directory, stem, ZH_MD);
      OtherExtension(path, directory, stem, ZH_MD, MD);
    }
  }

  // A link in a Chinese document is in the wrong locale iff it means the English half of a pair, a
  // link in an English document iff it means the Chinese half.
  lemma ViolationIff(ctx: Context, url: string)
    ensures IsViolation(ctx, url) <==>
            && !IsExternalOrAbsolute(url) && UrlPath(url) != "" && ResolveTarget(ctx, UrlPath(url)).Some?
            && var target := ResolveTarget(ctx, UrlPath(url)).value;
               if ctx.zh then IsEnglishHalf(ctx, target) else IsChineseHalf(ctx, target)
  {
    if !IsExternalOrAbsolute(url) && UrlPath(url) != "" && ResolveTarget(ctx, UrlPath(url)).Some? {
      TargetIff(ctx, ResolveTarget(ctx, UrlPath(url)).value);
    }
  }

  lemma TargetIff(ctx: Context, target: Segments)
    ensures (PairSource(ctx, target).Some? && ExpectedTarget(ctx, PairSource(ctx, target).value) != target)
       <==> if ctx.zh then IsEnglishHalf(ctx, target) else IsChineseHalf(ctx, target)
  {
    EndsInIff(target, MD);
    EndsInIff(target, ZH_MD);
    ChineseHalfIff(ctx, target);
    ZhTargetIsExpected(ctx, target);
    if HasExtension(target, ZH_MD) { EnglishDiffers(target); }
    if HasExtension(target, MD) { ChineseDiffers(target); }
  }

  lemma ChineseDiffers(e: Segments)
    requires HasExtension(e, MD)
    ensures WithExtension(e, MD, ZH_MD) != e
  {
    var other := WithExtension(e, MD, ZH_MD);
    assert |other[|other| - 1]| > |e[|e| - 1]|;
  }

  // What the rewritten link means: the other half of the pair, if it exists. It stays internal and
  // keeps its query and fragment.
  lemma RewriteLeads(ctx: Context, url: string, directory: Segments, stem: string)
    requires GoodContext(ctx) && IsViolation(ctx, url)
    requires IsDocument(ResolveTarget(ctx, UrlPath(url)).value, directory, stem, if ctx.zh then ".md" else ".zh.md")
    ensures var other := directory + [stem + if ctx.zh then ".zh.md" else ".md"];
      && UrlSuffix(Rewrite(ctx, url)) == UrlSuffix(url)
      && (ctx.isFile(other) ==>
            && !IsExternalOrAbsolute(Rewrite(ctx, url)) && UrlPath(Rewrite(ctx, url)) != ""
            && ResolveTarget(ctx, UrlPath(Rewrite(ctx, url))) == Some(other))
  {
    var r := ResolveLink(ctx, url).value;
    if ctx.zh {
      ZhViolation(ctx, url);
      OtherExtension(r.target, directory, stem, MD, ZH_MD);
    } else {
      OtherExtension(r.target, directory, stem, ZH_MD, MD);
    }
    ExpectedPathLeads(ctx, url);
  }

  // A path written with the extension of its document keeps everything else.
  lemma RewriteKeepsPath(ctx: Context, url: string, stem: string)
    requires IsViolation(ctx, url) && UrlPath(url) == stem + if ctx.zh then ".md" else ".zh.md"
    requires ctx.zh ==> !EndsWith(UrlPath(url), ".zh.md")
    ensures Rewrite(ctx, url) == stem + (if ctx.zh then ".zh.md" else ".md") + UrlSuffix(url)
  {
    var raw := UrlPath(url);
    var from := if ctx.zh then MD else ZH_MD;
    assert raw[|raw| - |from|..] == from && raw[..|raw| - |from|] == stem;
  }

  // Any other path is written anew, relative to the document's directory, and with a leading `./`
  // if the link had one and the new path does not lead upwards.
  lemma RewriteRebuilds(ctx: Context, url: string, directory: Segments, stem: string)
    requires GoodContext(ctx) && IsViolation(ctx, url)
    requires IsDocument(ResolveTarget(ctx, UrlPath(url)).value, directory, stem, if ctx.zh then ".md" else ".zh.md")
    requires if ctx.zh then !EndsWith(UrlPath(url), ".md") else !EndsWith(UrlPath(url), ".zh.md")
    ensures var relative := Relative(ctx.directory, directory + [stem + if ctx.zh then ".zh.md" else ".md"]);
      var encoded := EncodePath(ctx.codec, relative);
      Rewrite(ctx, url) == (if "./" <= url && !("." <= encoded) then "./" + encoded else encoded) + UrlSuffix(url)
  {
    var r := ResolveLink(ctx, url).value;
    if ctx.zh {
      ZhViolation(ctx, url);
      OtherExtension(r.target, directory, stem, MD, ZH_MD);
    } else {
      OtherExtension(r.target, directory, stem, ZH_MD, MD);
    }
    UrlSplits(url);
    assert "./" <= url <==> "./" <= UrlPath(url) by { HereIsPath(url); }
  }

  lemma HereIsPath(url: string)
    ensures "./" <= url <==> "./" <= UrlPath(url)
  {
    var path, suffix := UrlPath(url), UrlSuffix(url);
    UrlSplits(url);
    assert |path| < |url| ==> url[|path|] == '?' || url[|path|] == '#';
    assert "./" <= url ==> url[0] == '.' && url[1] == '/';
    assert |path| >= 2 ==> path[..2] == url[..2];
  }
}
