// findExportedTypeDecl: the search for a type declaration through re-export chains, whose set
// of visited (file, name) pairs is shared by all branches.
module ExportSearch {
  import opened Options
  import opened Digraphs
  import opened ConfigTypes

  // An exported name and the name it has in the file it comes from.
  datatype Specifier = Specifier(exported: string, source: string)

  // `export * from './x.ts'` and `export { … } from './x.ts'` with the file the specifier means.
  // Every other export statement is skipped.
  datatype Export =
    | Star(file: string)
    | Named(file: string, elements: seq<Specifier>)
    | OtherExport

  // The type declarations of a file, the names under which it exports its own declarations, and
  // its export statements.
  datatype SourceFile = SourceFile(types: set<string>, own: map<string, string>, exports: seq<Export>)

  type Files = map<string, SourceFile>

  function FirstElement(elements: seq<Specifier>, name: string): Option<string> {
    if elements == [] then None
    else if elements[0].exported == name then Some(elements[0].source)
    else FirstElement(elements[1..], name)
  }

  // Where an export statement sends the search for a name.
  function Target(e: Export, name: string): Option<Site> {
    match e
    case Star(file) => Some(Site(file, name))
    case Named(file, elements) =>
      (match FirstElement(elements, name)
       case Some(source) => Some(Site(file, source))
       case None => None)
    case OtherExport => None
  }

  // A star looks for the same name in its file, a clause for the source name of its first element
  // that exports the name.
  ghost predicate SendsTo(e: Export, name: string, next: Site) {
    match e
    case Star(file) => next == Site(file, name)
    case Named(file, elements) => next.file == file && exists k :: IsFirstElement(elements, name, next.name, k)
    case OtherExport => false
  }

  ghost predicate IsFirstElement(elements: seq<Specifier>, name: string, source: string, k: int) {
    && 0 <= k < |elements| && elements[k] == Specifier(name, source)
    && forall j :: 0 <= j < k ==> elements[j].exported != name
  }

  lemma {:induction false} FirstElementIff(elements: seq<Specifier>, name: string, source: string)
    ensures FirstElement(elements, name) == Some(source) <==> exists k :: IsFirstElement(elements, name, source, k)
  {
    if elements != [] {
      var rest := elements[1..];
      FirstElementIff(rest, name, source);
      if FirstElement(elements, name) == Some(source) {
        if elements[0].exported == name {
          assert IsFirstElement(elements, name, source, 0);
        } else {
          var k :| IsFirstElement(rest, name, source, k);
          assert IsFirstElement(elements, name, source, k + 1);
        }
      }
      if k :| IsFirstElement(elements, name, source, k) {
        if k > 0 { assert elements[0].exported != name && IsFirstElement(rest, name, source, k - 1); }
      }
    }
  }

  lemma TargetIff(e: Export, name: string, next: Site)
    ensures Target(e, name) == Some(next) <==> SendsTo(e, name, next)
  {
    if e.Named? { FirstElementIff(e.elements, name, next.name); }
  }

  function Targets(exports: seq<Export>, name: string): seq<Site> {
    if exports == [] then []
    else (if Target(exports[0], name).Some? then [Target(exports[0], name).value] else []) + Targets(exports[1..], name)
  }

  predicate Declares(files: Files, site: Site) {
    site.file in files && site.name in files[site.file].types
  }

  // The k-th export of the file of a site sends the search on to another site.
  ghost predicate LeadsOn(files: Files, site: Site, k: int, next: Site) {
    && site.file in files && 0 <= k < |files[site.file].exports|
    && SendsTo(files[site.file].exports[k], site.name, next)
  }

  datatype SearchResult =
    | Hit(site: Site)
    | Miss
    | Unreadable(file: string) // loading the re-exported file throws

  // Without passing certain sites one can come to a declaration of the name, or to a file that
  // cannot be read.
  least predicate CanEnd(files: Files, above: set<Site>, site: Site) {
    && site !in above
    && (|| site.file !in files || Declares(files, site)
        || exists k, next :: LeadsOn(files, site, k, next) && CanEnd(files, above, next))
  }

  // Where the search ends: at a file's own declaration, else where it ends behind the first export
  // behind which it can end at all without passing the sites on the way to the file again.
  least predicate EndsFirst(files: Files, above: set<Site>, site: Site, r: SearchResult) {
    && site !in above
    && if site.file !in files then r == Unreadable(site.file)
       else if Declares(files, site) then r == Hit(site)
       else exists k, next :: (LeadsOn(files, site, k, next) && NoneBefore(files, above + {site}, site, k)
                               && EndsFirst(files, above + {site}, next, r))
  }

  ghost predicate NoneBefore(files: Files, above: set<Site>, site: Site, k: int) {
    forall j, next :: 0 <= j < k && LeadsOn(files, site, j, next) ==> !CanEnd(files, above, next)
  }

  // ---- There is at most one such end ----

  least lemma {:induction false} CanEndPastFewer(files: Files, above: set<Site>, fewer: set<Site>, site: Site)
    requires CanEnd(files, above, site)
    ensures fewer <= above ==> CanEnd(files, fewer, site)
  {
    if fewer <= above && site.file in files && !Declares(files, site) {
      var k, next :| LeadsOn(files, site, k, next) && CanEnd#[_k - 1](files, above, next);
      CanEndPastFewer(files, above, fewer, next);
    }
  }

  least lemma {:induction false} FirstIsEnd(files: Files, above: set<Site>, site: Site, r: SearchResult)
    requires EndsFirst(files, above, site, r)
    ensures CanEnd(files, above, site)
    ensures (r.Hit? && Declares(files, r.site)) || (r.Unreadable? && r.file !in files)
  {
    if site.file in files && !Declares(files, site) {
      var k, next :| LeadsOn(files, site, k, next) && NoneBefore(files, above + {site}, site, k)
        && EndsFirst#[_k - 1](files, above + {site}, next, r);
      FirstIsEnd(files, above + {site}, next, r);
      CanEndPastFewer(files, above + {site}, above, next);
    }
  }

  lemma SendsToOne(e: Export, name: string, a: Site, b: Site)
    requires SendsTo(e, name, a) && SendsTo(e, name, b)
    ensures a == b
  {
    TargetIff(e, name, a);
    TargetIff(e, name, b);
  }

  // A second end of the search, one call at a time.
  ghost predicate AlsoEnds(files: Files, above: set<Site>, site: Site, r: SearchResult) {
    EndsFirst(files, above, site, r)
  }

  lemma AlsoLeads(files: Files, above: set<Site>, site: Site, r: SearchResult, k: int, next: Site)
    requires AlsoEnds(files, above, site, r) && LeadsOn(files, site, k, next) && !Declares(files, site)
    requires NoneBefore(files, above + {site}, site, k) && CanEnd(files, above + {site}, next)
    ensures AlsoEnds(files, above + {site}, next, r)
  {
    var more := above + {site};
    var j, p :| LeadsOn(files, site, j, p) && NoneBefore(files, more, site, j) && EndsFirst(files, more, p, r);
    FirstIsEnd(files, more, p, r);
    assert j == k;
    SendsToOne(files[site.file].exports[k], site.name, next, p);
  }

  lemma AlsoOwn(files: Files, above: set<Site>, site: Site, r: SearchResult)
    requires AlsoEnds(files, above, site, r) && (site.file !in files || Declares(files, site))
    ensures r == if site.file !in files then Unreadable(site.file) else Hit(site)
  {
  }

  least lemma {:induction false} FirstIsUnique(files: Files, above: set<Site>, site: Site, r: SearchResult,
                                               t: SearchResult)
    requires EndsFirst(files, above, site, r)
    ensures AlsoEnds(files, above, site, t) ==> r == t
  {
    if AlsoEnds(files, above, site, t) {
      if site.file !in files || Declares(files, site) {
        AlsoOwn(files, above, site, t);
      } else {
        var more := above + {site};
        var k, next :| LeadsOn(files, site, k, next) && NoneBefore(files, more, site, k)
          && EndsFirst#[_k - 1](files, more, next, r);
        FirstIsEnd#[_k - 1](files, more, next, r);
        AlsoLeads(files, above, site, t, k, next);
        FirstIsUnique(files, more, next, r, t);
      }
    }
  }

  lemma AnswerIsFixed(files: Files, root: Site, r: SearchResult, t: SearchResult)
    requires EndsFirst(files, {}, root, r) && EndsFirst(files, {}, root, t)
    ensures r == t
  {
    FirstIsUnique(files, {}, root, r, t);
  }

  // ---- The re-export graph ----

  function SourceNames(e: Export): set<string> {
    if e.Named? then set x | x in e.elements :: x.source else {}
  }

  function Names(files: Files, root: Site): set<string> {
    {root.name} + set f, e, n | f in files && e in files[f].exports && n in SourceNames(e) :: n
  }

  ghost function ReExports(files: Files, root: Site): Graph<Site> {
    map file, name | file in files && name in Names(files, root) ::
          Site(file, name) := Targets(files[file].exports, name)
  }

  lemma {:induction false} TargetsMembers(exports: seq<Export>, name: string, site: Site)
    ensures site in Targets(exports, name) <==> exists k :: 0 <= k < |exports| && SendsTo(exports[k], name, site)
  {
    if exports != [] {
      TargetsMembers(exports[1..], name, site);
      TargetIff(exports[0], name, site);
      if k :| 0 <= k < |exports| && SendsTo(exports[k], name, site) {
        if k > 0 { assert exports[1..][k - 1] == exports[k]; }
      }
      if k :| 0 <= k < |exports[1..]| && SendsTo(exports[1..][k], name, site) {
        assert exports[k + 1] == exports[1..][k];
      }
    }
  }

  // A target in a readable file is again a node of the graph.
  lemma TargetIsNode(files: Files, root: Site, site: Site, k: nat, next: Site)
    requires site in ReExports(files, root) && LeadsOn(files, site, k, next)
    ensures IsEdge(ReExports(files, root), site, next)
    ensures next.file in files ==> next in ReExports(files, root)
  {
    var e := files[site.file].exports[k];
    TargetsMembers(files[site.file].exports, site.name, next);
    if e.Named? {
      var i :| IsFirstElement(e.elements, site.name, next.name, i);
      assert e.elements[i].source in SourceNames(e) && e in files[site.file].exports;
    }
  }

  // ---- The search ----

  // A result other than a miss is where the search ends first, and that lies within reach.
  ghost predicate IsAnswer(files: Files, root: Site, above: set<Site>, site: Site, r: SearchResult) {
    var g := ReExports(files, root);
    && EndsFirst(files, above, site, r)
    && match r
       case Hit(found) => Reaches(g, site, found)
       case Unreadable(file) => exists s :: Reaches(g, site, s) && s.file == file
       case Miss => true
  }

  lemma OwnIsFound(files: Files, root: Site, above: set<Site>, site: Site)
    requires site in ReExports(files, root) && Declares(files, site) && site !in above
    ensures IsAnswer(files, root, above, site, Hit(site))
  {
    ReachesSelf(ReExports(files, root), site);
  }

  lemma TargetIsReached(files: Files, root: Site, site: Site, k: nat, next: Site)
    requires site in ReExports(files, root) && LeadsOn(files, site, k, next)
    ensures Reaches(ReExports(files, root), site, next)
  {
    var g := ReExports(files, root);
    TargetIsNode(files, root, site, k, next);
    ReachesSelf(g, site);
    ReachesStep(g, site, site, next);
  }

  lemma UnreadableIsFound(files: Files, root: Site, above: set<Site>, site: Site)
    requires site.file !in files && site !in above
    ensures IsAnswer(files, root, above, site, Unreadable(site.file))
  {
    ReachesSelf(ReExports(files, root), site);
  }

  // What is found behind the first re-export that leads to anything is found from its file.
  lemma BehindIsFound(files: Files, root: Site, above: set<Site>, site: Site, k: nat, next: Site, r: SearchResult)
    requires site in ReExports(files, root) && !Declares(files, site) && site !in above && LeadsOn(files, site, k, next)
    requires NoneBefore(files, above + {site}, site, k) && IsAnswer(files, root, above + {site}, next, r)
    ensures IsAnswer(files, root, above, site, r)
  {
    var g := ReExports(files, root);
    TargetIsReached(files, root, site, k, next);
    match r
    case Hit(found) => ReachesJoin(g, site, next, found);
    case Unreadable(file) =>
      var s :| Reaches(g, next, s) && s.file == file;
      ReachesJoin(g, site, next, s);
    case Miss =>
  }

  // A site the search is finished with: readable, without the declaration, all targets visited too.
  ghost predicate Exhausted(files: Files, seen: set<Site>, site: Site) {
    && site.file in files && !Declares(files, site)
    && forall k, next :: LeadsOn(files, site, k, next) ==> next in seen
  }

  // All visited sites are on the way to the current one or finished with.
  ghost predicate IsWalked(files: Files, above: set<Site>, seen: set<Site>) {
    && above <= seen && (forall s :: s in above ==> s.file in files)
    && forall s :: s in seen && s !in above ==> Exhausted(files, seen, s)
  }

  // From a finished site no declaration can be come to any more.
  least lemma {:induction false} WalkedLeadsNowhere(files: Files, above: set<Site>, seen: set<Site>, site: Site)
    requires CanEnd(files, above, site)
    ensures IsWalked(files, above, seen) ==> site !in seen
  {
    if IsWalked(files, above, seen) && site in seen {
      assert Exhausted(files, seen, site);
      var k, next :| LeadsOn(files, site, k, next) && CanEnd#[_k - 1](files, above, next);
      WalkedLeadsNowhere(files, above, seen, next);
    }
  }

  ghost predicate VisitedBefore(files: Files, seen: set<Site>, site: Site, k: int) {
    forall j, next :: 0 <= j < k && LeadsOn(files, site, j, next) ==> next in seen
  }

  lemma VisitedUpTo(files: Files, seen: set<Site>, more: set<Site>, site: Site, k: nat)
    requires site.file in files && k < |files[site.file].exports| && VisitedBefore(files, seen, site, k) && seen <= more
    requires var target := Target(files[site.file].exports[k], site.name); target.Some? ==> target.value in more
    ensures VisitedBefore(files, more, site, k + 1)
  {
    forall j, next | 0 <= j < k + 1 && LeadsOn(files, site, j, next) ensures next in more {
      if j == k { TargetIff(files[site.file].exports[k], site.name, next); }
    }
  }

  lemma AllVisited(files: Files, above: set<Site>, seen: set<Site>, site: Site)
    requires site.file in files && !Declares(files, site) && IsWalked(files, above + {site}, seen) && site in seen
    requires above <= seen && VisitedBefore(files, seen, site, |files[site.file].exports|)
    ensures IsWalked(files, above, seen)
  {
    assert Exhausted(files, seen, site);
  }

  lemma NothingBefore(files: Files, above: set<Site>, seen: set<Site>, site: Site, k: nat)
    requires IsWalked(files, above, seen) && VisitedBefore(files, seen, site, k)
    ensures NoneBefore(files, above, site, k)
  {
    forall j, next | 0 <= j < k && LeadsOn(files, site, j, next) ensures !CanEnd(files, above, next) {
      if CanEnd(files, above, next) { WalkedLeadsNowhere(files, above, seen, next); }
    }
  }

  lemma VisitKeepsWalked(files: Files, above: set<Site>, seen: set<Site>, site: Site)
    requires IsWalked(files, above, seen) && site.file in files
    ensures IsWalked(files, above + {site}, seen + {site})
  {
    forall s | s in seen + {site} && s !in above + {site} ensures Exhausted(files, seen + {site}, s) {
      assert Exhausted(files, seen, s);
    }
  }

  class ExportSearch {
    const files: Files
    ghost const root: Site
    var seen: set<Site>

    constructor (files: Files, root: Site)
      ensures this.files == files && this.root == root && seen == {}
    {
      this.files, this.root, seen := files, root, {};
    }

    ghost function Graph(): Graph<Site> {
      ReExports(files, root)
    }

    // One call, below the calls for the sites above: on a miss everything newly visited is finished.
    method Find(site: Site, ghost above: set<Site>) returns (r: SearchResult)
      requires site in Graph() && IsWalked(files, above, seen)
      modifies this
      ensures !r.Miss? ==> IsAnswer(files, root, above, site, r)
      ensures r.Miss? ==> old(seen) <= seen && site in seen && IsWalked(files, above, seen)
      decreases Graph().Keys - seen
    {
      if site in seen { return Miss; }
      VisitKeepsWalked(files, above, seen, site);
      seen := seen + {site};
      if site.name in files[site.file].types {
        OwnIsFound(files, root, above, site);
        return Hit(site);
      }
      var exports := files[site.file].exports;
      for k := 0 to |exports|
        invariant old(seen) + {site} <= seen && IsWalked(files, above + {site}, seen)
        invariant VisitedBefore(files, seen, site, k)
      {
        var target := Target(exports[k], site.name);
        ghost var before := seen;
        if target.Some? {
          TargetIff(exports[k], site.name, target.value);
          NothingBefore(files, above + {site}, seen, site, k);
          if target.value.file !in files {
            UnreadableIsFound(files, root, above + {site}, target.value);
            BehindIsFound(files, root, above, site, k, target.value, Unreadable(target.value.file));
            return Unreadable(target.value.file);
          }
          TargetIsNode(files, root, site, k, target.value);
          r := Find(target.value, above + {site});
          if !r.Miss? {
            BehindIsFound(files, root, above, site, k, target.value, r);
            return;
          }
        }
        VisitedUpTo(files, before, seen, site, k);
      }
      AllVisited(files, above, seen, site);
      return Miss;
    }
  }

  ghost predicate AllReadable(files: Files, root: Site) {
    forall s :: Reaches(ReExports(files, root), root, s) ==> s.file in files
  }

  // The search is complete although branches share `seen`: it misses only if no reachable site
  // declares the type, and on readable files it finds one exactly when there is one.
  method FindExportedTypeDecl(files: Files, file: string, name: string) returns (r: SearchResult)
    requires file in files
    ensures var root := Site(file, name);
      && (!r.Miss? ==> EndsFirst(files, {}, root, r))
      && (r.Hit? ==> Reaches(ReExports(files, root), root, r.site) && Declares(files, r.site))
    ensures var root := Site(file, name);
      r.Miss? ==> forall s :: Reaches(ReExports(files, root), root, s) ==> s.file in files && !Declares(files, s)
    ensures var root := Site(file, name);
      AllReadable(files, root) ==>
        (r.Hit? <==> exists s :: Reaches(ReExports(files, root), root, s) && Declares(files, s))
    ensures r.Unreadable? ==> !AllReadable(files, Site(file, name))
  {
    var root := Site(file, name);
    var search := new ExportSearch(files, root);
    r := search.Find(root, {});
    if r.Miss? {
      forall s | Reaches(ReExports(files, root), root, s)
        ensures s.file in files && !Declares(files, s)
      {
        SeenIsClosed(files, root, search.seen, s);
        assert Exhausted(files, search.seen, s);
      }
    } else {
      FirstIsEnd(files, {}, root, r);
    }
  }

  lemma SeenIsClosed(files: Files, root: Site, seen: set<Site>, s: Site)
    requires root in seen && IsWalked(files, {}, seen) && Reaches(ReExports(files, root), root, s)
    ensures s in seen
  {
    var g := ReExports(files, root);
    var p :| IsWalk(g, p) && p[0] == root && p[|p| - 1] == s;
    forall a, b | a in seen && IsEdge(g, a, b) ensures b in seen {
      assert Exhausted(files, seen, a);
      TargetsMembers(files[a.file].exports, a.name, b);
      var k :| 0 <= k < |files[a.file].exports| && SendsTo(files[a.file].exports[k], a.name, b);
      assert LeadsOn(files, a, k, b);
    }
    ClosedKeepsWalk(g, seen, p);
  }

  // ---- What the module exports ----

  ghost predicate NamedExport(files: Files, site: Site, k: int, next: Site) {
    LeadsOn(files, site, k, next) && files[site.file].exports[k].Named?
  }

  ghost predicate StarExport(files: Files, site: Site, k: int, next: Site) {
    LeadsOn(files, site, k, next) && files[site.file].exports[k].Star? && site.name != "default"
  }

  ghost predicate HasNamedExport(files: Files, site: Site) {
    exists k, next :: NamedExport(files, site, k, next)
  }

  // The declaration a module exports under a name: its own one exported so, else that of a named
  // re-export, else that of a star re-export, which passes over `default`.
  least predicate Provides(files: Files, site: Site, target: Site) {
    site.file in files &&
    if site.name in files[site.file].own then target == Site(site.file, files[site.file].own[site.name])
    else if HasNamedExport(files, site) then
      exists k, next :: NamedExport(files, site, k, next) && Provides(files, next, target)
    else
      exists k, next :: StarExport(files, site, k, next) && Provides(files, next, target)
  }

  // Here the search reads a file as the language does: a declaration of the name is exported under
  // its name and nothing else is, and no star competes with a named re-export or passes `default`.
  ghost predicate ReadsRight(files: Files, site: Site) {
    site.file in files ==>
      && (Declares(files, site) <==> site.name in files[site.file].own)
      && (Declares(files, site) ==> files[site.file].own[site.name] == site.name)
      && ((site.name == "default" || HasNamedExport(files, site)) ==>
            forall e :: e in files[site.file].exports ==> !e.Star?)
  }

  least lemma {:induction false} FirstIsProvided(files: Files, root: Site, above: set<Site>, site: Site,
                                                 r: SearchResult)
    requires EndsFirst(files, above, site, r)
    requires Reaches(ReExports(files, root), root, site) && (site.file in files ==> site in ReExports(files, root))
    requires forall s :: Reaches(ReExports(files, root), root, s) ==> ReadsRight(files, s)
    ensures r.Hit? ==> Provides(files, site, r.site)
  {
    assert ReadsRight(files, site);
    if site.file in files && !Declares(files, site) && r.Hit? {
      var k, next :| LeadsOn(files, site, k, next) && EndsFirst#[_k - 1](files, above + {site}, next, r);
      TargetIsNode(files, root, site, k, next);
      ReachesStep(ReExports(files, root), root, site, next);
      FirstIsProvided(files, root, above + {site}, next, r);
      assert files[site.file].exports[k] in files[site.file].exports;
      assert NamedExport(files, site, k, next) || StarExport(files, site, k, next);
    }
  }

  // If all files on the way are read right, the hit is what the module exports under the name.
  lemma HitIsExported(files: Files, root: Site, found: Site)
    requires root.file in files && EndsFirst(files, {}, root, Hit(found))
    requires forall s :: Reaches(ReExports(files, root), root, s) ==> ReadsRight(files, s)
    ensures Provides(files, root, found)
  {
    ReachesSelf(ReExports(files, root), root);
    assert root.name in Names(files, root);
    FirstIsProvided(files, root, {}, root, Hit(found));
  }

  // a.ts has an interface Y of its own and exports Z of b.ts as Y.
  function Hiding(): Files {
    map["a" := SourceFile({"Y"}, map[], [Export.Named("b", [Specifier("Y", "Z")])]),
        "b" := SourceFile({"Z"}, map["Z" := "Z"], [])]
  }

  // The search hits the interface that a.ts keeps to itself, and nothing else.
  lemma PrivateIsHit(found: Site)
    ensures EndsFirst(Hiding(), {}, Site("a", "Y"), Hit(found)) <==> found == Site("a", "Y")
    ensures Provides(Hiding(), Site("a", "Y"), found) <==> found == Site("b", "Z")
  {
    var files, renamed := Hiding(), Export.Named("b", [Specifier("Y", "Z")]);
    var site, next := Site("a", "Y"), Site("b", "Z");
    assert files["a"].exports == [renamed] && Declares(files, site) && Declares(files, next);
    assert IsFirstElement(renamed.elements, "Y", "Z", 0);
    assert NamedExport(files, site, 0, next);
    forall k, other | NamedExport(files, site, k, other) ensures other == next {
      SendsToOne(renamed, "Y", other, next);
    }
    assert Provides(files, next, found) <==> found == next;
  }
}
