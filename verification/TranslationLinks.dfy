// Locale-aware resolution of bilingual document links and the URL a wrong-locale link gets.
module TranslationLinks {
  import opened Options
  import opened RepositoryPaths

  const MD := ".md"
  const ZH_MD := ".zh.md"

  predicate EndsWith(s: string, suffix: string) {
    |suffix| <= |s| && s[|s| - |suffix|..] == suffix
  }

  // s without a suffix it ends with, and with another in its place.
  function Resuffix(s: string, suffix: string, other: string): string
    requires EndsWith(s, suffix)
  {
    s[..|s| - |suffix|] + other
  }

  // Percent decoding of a path, which leaves a malformed path as it is, and percent encoding
  // of one path segment.
  datatype Codec = Codec(decode: string -> string, encode: string -> string)

  function EncodeAll(codec: Codec, path: Segments): Segments {
    if path == [] then [] else [codec.encode(path[0])] + EncodeAll(codec, path[1..])
  }

  function EncodePath(codec: Codec, path: Segments): string {
    Join(EncodeAll(codec, path))
  }

  // What the two functions of the language guarantee here: the document suffixes hold no escape,
  // decoding undoes encoding, and an encoded path has no character with a meaning in a URL.
  ghost predicate GoodCodec(c: Codec) {
    && (forall s :: c.decode(s + MD) == c.decode(s) + MD && c.decode(s + ZH_MD) == c.decode(s) + ZH_MD)
    && (forall path :: path != [] && AllPlain(path) ==>
          c.decode(EncodePath(c, path)) == Join(path) && c.decode("./" + EncodePath(c, path)) == "./" + Join(path))
    && c.decode("./") == "./"
    && (forall path :: path != [] && AllPlain(path) ==> Harmless(EncodePath(c, path)))
  }

  ghost predicate AllPlain(path: Segments) {
    forall i :: 0 <= i < |path| ==> path[i] != "" && !Contains(path[i], '/')
  }

  ghost predicate Harmless(s: string) {
    s != "" && s[0] != '/' && !Contains(s, '?') && !Contains(s, '#') && !Contains(s, ':')
  }

  // The source document's directory and locale, the repository's files, and which English
  // documents belong to the bilingual corpus.
  datatype Context = Context(
    directory: Segments, zh: bool, isFile: Segments -> bool, isPairSource: Segments -> bool, codec: Codec)

  ghost predicate GoodContext(ctx: Context) {
    && AllNames(ctx.directory) && !ctx.isFile(ctx.directory) && GoodCodec(ctx.codec)
    && forall path :: ctx.isFile(path) ==> AllNames(path)
  }

  // ---- URLs ----

  function TargetEnd(url: string): (n: nat)
    ensures n <= |url| && forall i :: 0 <= i < n ==> url[i] != '?' && url[i] != '#'
    ensures n < |url| ==> url[n] == '?' || url[n] == '#'
  {
    if url == "" || url[0] == '?' || url[0] == '#' then 0 else 1 + TargetEnd(url[1..])
  }

  function UrlPath(url: string): string { url[..TargetEnd(url)] }

  function UrlSuffix(url: string): string { url[TargetEnd(url)..] }

  predicate IsLetter(c: char) { 'a' <= c <= 'z' || 'A' <= c <= 'Z' }

  predicate IsSchemeChar(c: char) {
    IsLetter(c) || '0' <= c <= '9' || c == '+' || c == '.' || c == '-'
  }

  predicate HasScheme(url: string) {
    && url != "" && IsLetter(url[0])
    && exists k :: 0 < k < |url| && url[k] == ':' && forall i :: 0 <= i < k ==> IsSchemeChar(url[i])
  }

  predicate IsExternalOrAbsolute(url: string) {
    (url != "" && (url[0] == '#' || url[0] == '/')) || HasScheme(url)
  }

  // ---- Resolution ----

  // The repository file a link path means, if it is one. A trailing slash names no file.
  function ResolveTarget(ctx: Context, rawPath: string): (r: Option<Segments>)
    ensures r.Some? ==> ctx.isFile(r.value) && r.value != [] && r.value[0] != ".."
  {
    var decoded := ctx.codec.decode(rawPath);
    var target := Walk(ctx.directory, Split(decoded));
    if EndsWith(decoded, "/") || target == [] || target[0] == ".." || !ctx.isFile(target) then None else Some(target)
  }

  predicate HasExtension(path: Segments, suffix: string) {
    path != [] && EndsWith(path[|path| - 1], suffix)
  }

  function WithExtension(path: Segments, suffix: string, other: string): Segments
    requires HasExtension(path, suffix)
  {
    path[..|path| - 1] + [Resuffix(path[|path| - 1], suffix, other)]
  }

  // The English document of a translation pair.
  function PairSource(ctx: Context, target: Segments): (r: Option<Segments>)
    ensures r.Some? ==> HasExtension(r.value, MD) && ctx.isPairSource(r.value)
  {
    if HasExtension(target, ZH_MD) then
      ZhMdToMd(target);
      if ctx.isPairSource(WithExtension(target, ZH_MD, MD)) then Some(WithExtension(target, ZH_MD, MD)) else None
    else if HasExtension(target, MD) && ctx.isPairSource(target) then Some(target)
    else None
  }

  lemma ResuffixEnds(s: string, suffix: string, other: string)
    requires EndsWith(s, suffix)
    ensures EndsWith(Resuffix(s, suffix, other), other)
    ensures Resuffix(Resuffix(s, suffix, other), other, suffix) == s
  {
    var r := Resuffix(s, suffix, other);
    assert r[..|r| - |other|] == s[..|s| - |suffix|];
    assert s[..|s| - |suffix|] + suffix == s;
  }

  lemma ZhMdToMd(target: Segments)
    requires HasExtension(target, ZH_MD)
    ensures HasExtension(WithExtension(target, ZH_MD, MD), MD)
  {
    ResuffixEnds(target[|target| - 1], ZH_MD, MD);
  }

  function ExpectedTarget(ctx: Context, source: Segments): Segments
    requires HasExtension(source, MD)
  {
    if ctx.zh then WithExtension(source, MD, ZH_MD) else source
  }

  function RelativeExpectedPath(ctx: Context, expected: Segments, rawPath: string): string {
    var encoded := EncodePath(ctx.codec, Relative(ctx.directory, expected));
    if "./" <= rawPath && !("." <= encoded) then "./" + encoded else encoded
  }

  function ExpectedLocalePath(ctx: Context, rawPath: string, expected: Segments): string {
    if ctx.zh && EndsWith(rawPath, MD) && !EndsWith(rawPath, ZH_MD) then Resuffix(rawPath, MD, ZH_MD)
    else if !ctx.zh && EndsWith(rawPath, ZH_MD) then Resuffix(rawPath, ZH_MD, MD)
    else RelativeExpectedPath(ctx, expected, rawPath)
  }

  datatype ResolvedLink = ResolvedLink(target: Segments, expected: Segments, expectedUrl: string)

  // A link to a document of a translation pair, with the URL it should have. The authored text
  // of the destination is the URL itself.
  function ResolveLink(ctx: Context, url: string): (r: Option<ResolvedLink>)
  {
    if IsExternalOrAbsolute(url) || UrlPath(url) == "" then None
    else
      var target := ResolveTarget(ctx, UrlPath(url));
      if target.None? then None
      else
        var source := PairSource(ctx, target.value);
        if source.None? then None
        else
          var expected := ExpectedTarget(ctx, source.value);
          Some(ResolvedLink(target.value, expected, ExpectedLocalePath(ctx, UrlPath(url), expected) + UrlSuffix(url)))
  }

  predicate IsViolation(ctx: Context, url: string) {
    ResolveLink(ctx, url).Some? && ResolveLink(ctx, url).value.target != ResolveLink(ctx, url).value.expected
  }

  // The rewrite of one link.
  function Rewrite(ctx: Context, url: string): string {
    if IsViolation(ctx, url) then ResolveLink(ctx, url).value.expectedUrl else url
  }
}
