// The check that project references keep Host and Client compiler faces apart.
module ReferenceFaces {
  import opened Options
  import opened Digraphs
  import opened Sorting
  import opened Selections

  // Absolute, normalized paths as segments.
  type Path = seq<string>

  datatype Face = Host | Client

  // A reference as written and the config it names.
  datatype Reference = Reference(text: string, target: Path)

  // A tsconfig with the local config it extends, if any.
  datatype Config = Config(parent: Option<Path>, references: seq<Reference>)

  // The existing configs under a repository root, and the roots of split projects, longest first.
  datatype Workspace = Workspace(root: Path, configs: map<Path, Config>, splitRoots: seq<Path>)

  function FaceFile(face: Face): string {
    match face case Host => "tsconfig.host.json" case Client => "tsconfig.client.json"
  }

  function NamedFace(w: Workspace, path: Path): Option<Face> {
    if path != [] && path[|path| - 1] == FaceFile(Host) then Some(Host)
    else if path != [] && path[|path| - 1] == FaceFile(Client) then Some(Client)
    else if path == w.root + ["tsconfig.base.json"] then Some(Host)
    else if path == w.root + ["tsconfig.base.client.json"] then Some(Client)
    else None
  }

  // The configs with a face of their own: the two of every split project, and the two bases.
  ghost predicate NamesFace(w: Workspace, path: Path, face: Face) {
    match face
    case Host => IsFile(path, "tsconfig.host.json") || path == w.root + ["tsconfig.base.json"]
    case Client => IsFile(path, "tsconfig.client.json") || path == w.root + ["tsconfig.base.client.json"]
  }

  predicate IsFile(path: Path, name: string) {
    path != [] && path[|path| - 1] == name
  }

  ghost predicate NamesNoFace(w: Workspace, path: Path) {
    forall face :: !NamesFace(w, path, face)
  }

  lemma NamedFaceIff(w: Workspace, path: Path, face: Face)
    ensures NamedFace(w, path) == Some(face) <==> NamesFace(w, path, face)
    ensures NamedFace(w, path).None? <==> NamesNoFace(w, path)
  {
    var base, client := w.root + ["tsconfig.base.json"], w.root + ["tsconfig.base.client.json"];
    assert base[|base| - 1] == "tsconfig.base.json" && client[|client| - 1] == "tsconfig.base.client.json";
    assert "tsconfig.host.json"[9] == 'h' && "tsconfig.client.json"[9] == 'c' && "tsconfig.base.json"[9] == 'b';
    assert "tsconfig.base.client.json"[9] == 'b' && |"tsconfig.base.client.json"| != |"tsconfig.base.json"|;
    if NamedFace(w, path).None? {
      assert !NamesFace(w, path, Host) && !NamesFace(w, path, Client);
    } else {
      assert NamesFace(w, path, NamedFace(w, path).value);
    }
  }

  // The face a config has by name or inherits along its `extends` chain, which may be cyclic.
  function ProjectFace(w: Workspace, path: Path, seen: set<Path>): Option<Face>
    requires path in w.configs
    decreases w.configs.Keys - seen
  {
    if NamedFace(w, path).Some? then NamedFace(w, path)
    else if path in seen then None
    else
      match w.configs[path].parent
      case None => None
      case Some(parent) => if parent in w.configs then ProjectFace(w, parent, seen + {path}) else None
  }

  // The first split root that contains a config.
  function ContainingSplitRoot(roots: seq<Path>, target: Path): (r: Option<Path>)
    ensures r.Some? ==> r.value in roots && r.value <= target
    ensures r.None? ==> forall root :: root in roots ==> !(root <= target)
  {
    if roots == [] then None
    else if roots[0] <= target then Some(roots[0])
    else
      assert roots == [roots[0]] + roots[1..];
      ContainingSplitRoot(roots[1..], target)
  }

  datatype Violation =
    | FromFaceless(config: Path, reference: string, splitRoot: Path)
    | WrongLeaf(config: Path, reference: string, splitRoot: Path, face: Face)

  // The complaint about one reference of a config.
  function Complaint(w: Workspace, config: Path, reference: Reference): (v: Option<Violation>)
    requires config in w.configs
    ensures v.Some? ==> v.value.config == config
  {
    match ContainingSplitRoot(w.splitRoots, reference.target)
    case None => None
    case Some(root) =>
      match ProjectFace(w, config, {})
      case None => Some(FromFaceless(config, reference.text, root))
      case Some(face) =>
        if reference.target == root + [FaceFile(face)] then None
        else Some(WrongLeaf(config, reference.text, root, face))
  }

  function Complaints(w: Workspace, config: Path, references: seq<Reference>): (vs: seq<Violation>)
    requires config in w.configs
    ensures forall v :: v in vs ==> v.config == config
  {
    if references == [] then []
    else
      var rest := Complaints(w, config, references[1..]);
      if Complaint(w, config, references[0]).Some? then [Complaint(w, config, references[0]).value] + rest else rest
  }

  // The targets of the references without complaint.
  function Followed(w: Workspace, config: Path, references: seq<Reference>): seq<Path>
    requires config in w.configs
  {
    if references == [] then []
    else
      var rest := Followed(w, config, references[1..]);
      if Complaint(w, config, references[0]).None? then [references[0].target] + rest else rest
  }

  ghost function FollowGraph(w: Workspace): Graph<Path> {
    map config | config in w.configs :: Followed(w, config, w.configs[config].references)
  }

  function Aggregates(w: Workspace): seq<Path> {
    [w.root + [FaceFile(Host)], w.root + [FaceFile(Client)]]
  }

  ghost predicate IsAggregate(w: Workspace, path: Path) {
    path == w.root + ["tsconfig.host.json"] || path == w.root + ["tsconfig.client.json"]
  }

  lemma AggregateIff(w: Workspace, path: Path)
    ensures path in Aggregates(w) <==> IsAggregate(w, path)
  {
  }

  // An existing config reached from an aggregate over references without complaint.
  ghost predicate Visitable(w: Workspace, config: Path) {
    config in w.configs && Reachable(w, config)
  }

  ghost predicate Reachable(w: Workspace, path: Path) {
    exists a :: IsAggregate(w, a) && Reaches(FollowGraph(w), a, path)
  }

  // The complaints of the reachable configs, each as often as its config gives rise to it.
  ghost predicate Exact(w: Workspace, violations: seq<Violation>) {
    forall v :: multiset(violations)[v] ==
      if Visitable(w, v.config) then multiset(Complaints(w, v.config, w.configs[v.config].references))[v] else 0
  }

  // ---- The traversal ----

  ghost predicate Counted(w: Workspace, visited: set<Path>, violations: seq<Violation>)
    requires visited <= w.configs.Keys
  {
    forall v :: multiset(violations)[v] ==
      if v.config in visited then multiset(Complaints(w, v.config, w.configs[v.config].references))[v] else 0
  }

  ghost predicate Handled(w: Workspace, pending: seq<Path>, visited: set<Path>, path: Path) {
    path in visited || path in pending || path !in w.configs
  }

  ghost predicate TraversalInvariant(w: Workspace, pending: seq<Path>, visited: set<Path>) {
    && visited <= w.configs.Keys
    && (forall c :: c in visited ==> Reachable(w, c))
    && (forall c :: c in pending ==> Reachable(w, c))
    && (forall a :: a in Aggregates(w) ==> Handled(w, pending, visited, a))
    && (forall c, t :: c in visited && t in FollowGraph(w)[c] ==> Handled(w, pending, visited, t))
  }

  lemma DropLast(w: Workspace, pending: seq<Path>, visited: set<Path>)
    requires TraversalInvariant(w, pending, visited) && pending != []
    requires pending[|pending| - 1] in visited || pending[|pending| - 1] !in w.configs
    ensures TraversalInvariant(w, pending[..|pending| - 1], visited)
  {
    PopMembers(pending);
    var front := pending[..|pending| - 1];
    forall c | Handled(w, pending, visited, c) ensures Handled(w, front, visited, c) {}
  }

  lemma PopMembers(pending: seq<Path>)
    requires pending != []
    ensures forall c :: c in pending <==> c in pending[..|pending| - 1] || c == pending[|pending| - 1]
  {
    assert pending == pending[..|pending| - 1] + [pending[|pending| - 1]];
  }

  lemma NextReachable(w: Workspace, config: Path, t: Path)
    requires Reachable(w, config) && config in w.configs && t in FollowGraph(w)[config]
    ensures Reachable(w, t)
  {
    var a :| IsAggregate(w, a) && Reaches(FollowGraph(w), a, config);
    assert IsEdge(FollowGraph(w), config, t);
    ReachesStep(FollowGraph(w), a, config, t);
  }

  lemma StillHandled(w: Workspace, pending: seq<Path>, visited: set<Path>, more: seq<Path>, c: Path)
    requires pending != [] && Handled(w, pending, visited, c)
    ensures Handled(w, pending[..|pending| - 1] + more, visited + {pending[|pending| - 1]}, c)
  {
    PopMembers(pending);
  }

  lemma VisitLast(w: Workspace, pending: seq<Path>, visited: set<Path>)
    requires TraversalInvariant(w, pending, visited) && pending != [] && pending[|pending| - 1] in w.configs
    ensures var config := pending[|pending| - 1];
      TraversalInvariant(w, pending[..|pending| - 1] + FollowGraph(w)[config], visited + {config})
  {
    var config, more := pending[|pending| - 1], FollowGraph(w)[pending[|pending| - 1]];
    var pending', visited' := pending[..|pending| - 1] + more, visited + {config};
    PopMembers(pending);
    forall t | t in more ensures Reachable(w, t) {
      NextReachable(w, config, t);
    }
    forall a | a in Aggregates(w) ensures Handled(w, pending', visited', a) {
      StillHandled(w, pending, visited, more, a);
    }
    forall c, t | c in visited' && t in FollowGraph(w)[c] ensures Handled(w, pending', visited', t) {
      if c == config { assert t in pending'; } else { StillHandled(w, pending, visited, more, t); }
    }
  }

  lemma CountOneMore(w: Workspace, visited: set<Path>, violations: seq<Violation>, config: Path)
    requires visited <= w.configs.Keys && config in w.configs && config !in visited && Counted(w, visited, violations)
    ensures Counted(w, visited + {config}, violations + Complaints(w, config, w.configs[config].references))
  {
    var own := Complaints(w, config, w.configs[config].references);
    forall v
      ensures multiset(violations + own)[v] ==
        if v.config in visited + {config} then multiset(Complaints(w, v.config, w.configs[v.config].references))[v]
        else 0
    {
      assert multiset(violations + own)[v] == multiset(violations)[v] + multiset(own)[v];
      if v.config != config { assert v !in own; }
    }
  }

  lemma VisitedIsVisitable(w: Workspace, visited: set<Path>, config: Path)
    requires TraversalInvariant(w, [], visited)
    ensures config in visited <==> Visitable(w, config)
  {
    if Visitable(w, config) {
      var p := WalkFromAggregate(w, config);
      HandledAlong(w, visited, p, |p| - 1);
    }
  }

  lemma WalkFromAggregate(w: Workspace, config: Path) returns (p: seq<Path>)
    requires Reachable(w, config)
    ensures IsWalk(FollowGraph(w), p) && p[0] in Aggregates(w) && p[|p| - 1] == config
  {
    var a :| IsAggregate(w, a) && Reaches(FollowGraph(w), a, config);
    AggregateIff(w, a);
    p :| IsWalk(FollowGraph(w), p) && p[0] == a && p[|p| - 1] == config;
  }

  ghost predicate FollowedHandled(w: Workspace, visited: set<Path>)
    requires visited <= w.configs.Keys
  {
    forall c, t :: c in visited && t in FollowGraph(w)[c] ==> Handled(w, [], visited, t)
  }

  lemma {:induction false} HandledAlong(w: Workspace, visited: set<Path>, p: seq<Path>, k: nat)
    requires visited <= w.configs.Keys && FollowedHandled(w, visited)
    requires IsWalk(FollowGraph(w), p) && Handled(w, [], visited, p[0]) && k < |p|
    ensures Handled(w, [], visited, p[k])
  {
    if k > 0 {
      HandledAlong(w, visited, p, k - 1);
      assert EdgeAt(FollowGraph(w), p, k - 1);
    }
  }

  // The traversal ends on cyclic references and reports the exact violations, in sorted order.
  method CollectViolations(w: Workspace, leq: (Violation, Violation) -> bool) returns (sorted: seq<Violation>)
    requires TotalPreorder(leq)
    ensures Exact(w, sorted) && Sorted(leq, sorted)
  {
    var violations: seq<Violation> := [];
    var pending, visited := Aggregates(w), {};
    AggregatesReachable(w);
    while pending != []
      invariant TraversalInvariant(w, pending, visited) && Counted(w, visited, violations)
      decreases w.configs.Keys - visited, |pending|
    {
      var configPath := pending[|pending| - 1];
      if configPath in visited || configPath !in w.configs {
        DropLast(w, pending, visited);
        pending := pending[..|pending| - 1];
      } else {
        VisitLast(w, pending, visited);
        CountOneMore(w, visited, violations, configPath);
        visited := visited + {configPath};
        violations := violations + Complaints(w, configPath, w.configs[configPath].references);
        pending := pending[..|pending| - 1] + Followed(w, configPath, w.configs[configPath].references);
      }
    }
    CountedIsExact(w, visited, violations);
    SortSorts(leq, violations);
    sorted := Sort(leq, violations);
  }

  lemma AggregatesReachable(w: Workspace)
    ensures forall a :: a in Aggregates(w) ==> Reachable(w, a)
  {
    forall a | a in Aggregates(w) ensures Reachable(w, a) {
      AggregateIff(w, a);
      ReachesSelf(FollowGraph(w), a);
    }
  }

  lemma CountedIsExact(w: Workspace, visited: set<Path>, violations: seq<Violation>)
    requires TraversalInvariant(w, [], visited) && Counted(w, visited, violations)
    ensures Exact(w, violations)
  {
    forall v: Violation ensures v.config in visited <==> Visitable(w, v.config) {
      VisitedIsVisitable(w, visited, v.config);
    }
  }

  // Under an order without ties exactness fixes the report, whatever order the configs were
  // visited in.
  lemma ReportIsUnique(w: Workspace, leq: (Violation, Violation) -> bool, a: seq<Violation>, b: seq<Violation>)
    requires TotalPreorder(leq) && forall x, y :: leq(x, y) && leq(y, x) ==> x == y
    requires Exact(w, a) && Sorted(leq, a) && Exact(w, b) && Sorted(leq, b)
    ensures a == b
  {
    forall v ensures multiset(a)[v] == multiset(b)[v] {}
    SortedIsUnique(leq, a, b);
  }

  // ---- What the complaints say ----

  // The face of a config as the source defines it: the first named face along its `extends`
  // chain.
  ghost predicate ChainTo(w: Workspace, chain: seq<Path>) {
    && chain != [] && chain[0] in w.configs
    && forall i: nat :: i + 1 < |chain| ==> ExtendsAt(w, chain, i)
  }

  ghost predicate ExtendsAt(w: Workspace, chain: seq<Path>, i: nat) {
    && i + 1 < |chain| && chain[i] in w.configs && NamesNoFace(w, chain[i])
    && w.configs[chain[i]].parent == Some(chain[i + 1]) && chain[i + 1] in w.configs
  }

  // A face found is the face of the first named config of the chain.
  lemma {:induction false} FaceHasChain(w: Workspace, path: Path, seen: set<Path>) returns (chain: seq<Path>)
    requires path in w.configs && ProjectFace(w, path, seen).Some?
    ensures ChainTo(w, chain) && chain[0] == path && NamesFace(w, chain[|chain| - 1], ProjectFace(w, path, seen).value)
    decreases w.configs.Keys - seen
  {
    NamedFaceIff(w, path, ProjectFace(w, path, seen).value);
    if NamedFace(w, path).Some? {
      chain := [path];
    } else {
      var parent := w.configs[path].parent.value;
      var rest := FaceHasChain(w, parent, seen + {path});
      chain := [path] + rest;
      forall i: nat | i + 1 < |chain| ensures ExtendsAt(w, chain, i) {
        if i > 0 { assert ExtendsAt(w, rest, i - 1); }
      }
    }
  }

  lemma {:induction false} ChainRepeats(w: Workspace, chain: seq<Path>, i: nat, j: nat, k: nat)
    requires ChainTo(w, chain) && i < j && j + k < |chain|
    ensures chain[i] == chain[j] ==> chain[i + k] == chain[j + k]
  {
    if k > 0 {
      ChainRepeats(w, chain, i, j, k - 1);
      assert ExtendsAt(w, chain, i + k - 1) && ExtendsAt(w, chain, j + k - 1);
    }
  }

  // A chain to a named config never meets a config twice.
  lemma ChainIsDistinct(w: Workspace, chain: seq<Path>)
    requires ChainTo(w, chain) && !NamesNoFace(w, chain[|chain| - 1])
    ensures Distinct(chain)
  {
    forall i: nat, j: nat | i < j < |chain| ensures chain[i] != chain[j] {
      var last := |chain| - 1;
      ChainRepeats(w, chain, i, j, last - j);
      assert ExtendsAt(w, chain, i + (last - j));
    }
  }

  function Met(paths: seq<Path>): set<Path> {
    set p | p in paths
  }

  lemma {:induction false} ChainHasFace(w: Workspace, chain: seq<Path>, k: nat, face: Face)
    requires ChainTo(w, chain) && NamesFace(w, chain[|chain| - 1], face) && Distinct(chain) && k < |chain|
    ensures chain[k] in w.configs
    ensures ProjectFace(w, chain[k], Met(chain[..k])) == Some(face)
    decreases |chain| - k
  {
    NamedFaceIff(w, chain[k], face);
    if k > 0 { assert ExtendsAt(w, chain, k - 1); }
    if k + 1 < |chain| {
      assert ExtendsAt(w, chain, k);
      ChainHasFace(w, chain, k + 1, face);
      assert chain[..k + 1] == chain[..k] + [chain[k]];
      assert Met(chain[..k + 1]) == Met(chain[..k]) + {chain[k]};
    }
  }

  ghost predicate InheritsFace(w: Workspace, path: Path, face: Face) {
    exists chain :: IsFaceChain(w, path, face, chain)
  }

  ghost predicate IsFaceChain(w: Workspace, path: Path, face: Face, chain: seq<Path>) {
    ChainTo(w, chain) && chain[0] == path && NamesFace(w, chain[|chain| - 1], face)
  }

  // The set of seen configs only stops cycles: a config has a face exactly if its chain of
  // extended configs leads to a config named for that face.
  lemma FaceIsInherited(w: Workspace, path: Path, face: Face)
    requires path in w.configs
    ensures ProjectFace(w, path, {}) == Some(face) <==> InheritsFace(w, path, face)
  {
    if ProjectFace(w, path, {}) == Some(face) {
      var chain := FaceHasChain(w, path, {});
      assert IsFaceChain(w, path, face, chain);
    }
    if InheritsFace(w, path, face) {
      var chain :| IsFaceChain(w, path, face, chain);
      ChainIsDistinct(w, chain);
      ChainHasFace(w, chain, 0, face);
      assert chain[..0] == [] && Met([]) == {};
    }
  }

  lemma PrefixesCompare(a: Path, b: Path, target: Path)
    requires a <= target && b <= target
    ensures a < b || b <= a
  {
    if |a| < |b| {
      assert b[..|a|] == target[..|b|][..|a|] == a;
    } else {
      assert a[..|b|] == target[..|a|][..|b|] == b;
    }
  }

  // Sorted longest first, no split root comes before one nested in it; then the root found is
  // the innermost.
  lemma {:induction false} SplitRootIsInnermost(roots: seq<Path>, target: Path, other: Path)
    requires forall i, j :: 0 <= i < j < |roots| ==> !(roots[i] < roots[j])
    requires other in roots && other <= target
    ensures ContainingSplitRoot(roots, target).Some? && other <= ContainingSplitRoot(roots, target).value
  {
    if roots[0] <= target {
      PrefixesCompare(roots[0], other, target);
    } else {
      assert roots == [roots[0]] + roots[1..];
      SplitRootIsInnermost(roots[1..], target, other);
    }
  }

  // ---- What a report means ----

  ghost predicate Innermost(roots: seq<Path>, target: Path, root: Path) {
    root in roots && root <= target && forall other :: other in roots && other <= target ==> other <= root
  }

  // A reference may lead outside all split projects, or to the leaf of the config's own face in
  // the innermost split project around its target.
  ghost predicate KeepsFace(w: Workspace, config: Path, target: Path) {
    || (forall root :: root in w.splitRoots ==> !(root <= target))
    || (exists root, face :: LeafOf(w, config, target, root, face))
  }

  ghost predicate LeafOf(w: Workspace, config: Path, target: Path, root: Path, face: Face) {
    Innermost(w.splitRoots, target, root) && InheritsFace(w, config, face) && target == root + [FaceFile(face)]
  }

  ghost predicate LongestFirst(roots: seq<Path>) {
    forall i, j :: 0 <= i < j < |roots| ==> !(roots[i] < roots[j])
  }

  lemma RootIsInnermost(roots: seq<Path>, target: Path, root: Path)
    requires LongestFirst(roots)
    ensures ContainingSplitRoot(roots, target) == Some(root) <==> Innermost(roots, target, root)
  {
    forall other | other in roots && other <= target
      ensures ContainingSplitRoot(roots, target).Some? && other <= ContainingSplitRoot(roots, target).value
    {
      SplitRootIsInnermost(roots, target, other);
    }
    if Innermost(roots, target, root) {
      SplitRootIsInnermost(roots, target, root);
      SamePrefix(root, ContainingSplitRoot(roots, target).value);
    }
  }

  lemma SamePrefix(a: Path, b: Path)
    ensures a <= b && b <= a ==> a == b
  {
  }

  // A reference draws no complaint exactly if it keeps the face.
  lemma NoComplaintIff(w: Workspace, config: Path, reference: Reference)
    requires config in w.configs && LongestFirst(w.splitRoots)
    ensures Complaint(w, config, reference).None? <==> KeepsFace(w, config, reference.target)
  {
    var target := reference.target;
    var found, named := ContainingSplitRoot(w.splitRoots, target), ProjectFace(w, config, {});
    forall root, face
      ensures LeafOf(w, config, target, root, face)
         <==> found == Some(root) && named == Some(face) && target == root + [FaceFile(face)]
    {
      RootIsInnermost(w.splitRoots, target, root);
      FaceIsInherited(w, config, face);
    }
    if found.Some? && named.Some? && target == found.value + [FaceFile(named.value)] {
      assert LeafOf(w, config, target, found.value, named.value);
    }
  }

  // What a complaint says: the innermost split project around the target, and the face of the
  // config, if it has one.
  ghost predicate Blames(w: Workspace, config: Path, reference: Reference, v: Violation) {
    match v
    case FromFaceless(from, text, root) =>
      && from == config && text == reference.text && Innermost(w.splitRoots, reference.target, root)
      && forall face :: !InheritsFace(w, config, face)
    case WrongLeaf(from, text, root, face) =>
      && from == config && text == reference.text && Innermost(w.splitRoots, reference.target, root)
      && InheritsFace(w, config, face) && !LeafOf(w, config, reference.target, root, face)
  }

  lemma ComplaintIff(w: Workspace, config: Path, reference: Reference, v: Violation)
    requires config in w.configs && LongestFirst(w.splitRoots)
    ensures Complaint(w, config, reference) == Some(v) <==> Blames(w, config, reference, v)
  {
    var target := reference.target;
    RootIsInnermost(w.splitRoots, target, v.splitRoot);
    forall face ensures ProjectFace(w, config, {}) == Some(face) <==> InheritsFace(w, config, face) {
      FaceIsInherited(w, config, face);
    }
  }

  // The complaints about a config, in the order of its references: one for each that does not
  // keep the face.
  lemma ComplaintsStandAt(w: Workspace, config: Path, references: seq<Reference>)
    returns (blamed: seq<Reference>)
    requires config in w.configs && LongestFirst(w.splitRoots)
    ensures IsSelection(references, (r: Reference) => !KeepsFace(w, config, r.target), blamed)
    ensures |Complaints(w, config, references)| == |blamed|
    ensures forall i :: 0 <= i < |blamed| ==> Blames(w, config, blamed[i], Complaints(w, config, references)[i])
  {
    blamed := BlamedAmong(w, config, references);
    var keep := (r: Reference) => Complaint(w, config, r).Some?;
    SelectIsSelection(references, keep);
    forall r ensures Complaint(w, config, r).Some? <==> !KeepsFace(w, config, r.target) {
      NoComplaintIff(w, config, r);
    }
    SameSelection(references, keep, (r: Reference) => !KeepsFace(w, config, r.target), blamed);
    forall i | 0 <= i < |blamed| ensures Blames(w, config, blamed[i], Complaints(w, config, references)[i]) {
      ComplaintIff(w, config, blamed[i], Complaints(w, config, references)[i]);
    }
  }

  lemma {:induction false} BlamedAmong(w: Workspace, config: Path, references: seq<Reference>)
    returns (blamed: seq<Reference>)
    requires config in w.configs
    ensures blamed == Select(references, (r: Reference) => Complaint(w, config, r).Some?)
    ensures |Complaints(w, config, references)| == |blamed|
    ensures forall i :: 0 <= i < |blamed| ==>
              Complaint(w, config, blamed[i]) == Some(Complaints(w, config, references)[i])
  {
    blamed := [];
    if references != [] {
      var rest := BlamedAmong(w, config, references[1..]);
      blamed := (if Complaint(w, config, references[0]).Some? then [references[0]] else []) + rest;
    }
  }

  // The references followed are those that keep the face.
  lemma {:induction false} FollowedIff(w: Workspace, config: Path, references: seq<Reference>, target: Path)
    requires config in w.configs && LongestFirst(w.splitRoots)
    ensures target in Followed(w, config, references)
       <==> KeepsFace(w, config, target) && exists r :: r in references && r.target == target
  {
    if references != [] {
      var first := references[0];
      FollowedIff(w, config, references[1..], target);
      NoComplaintIff(w, config, first);
      assert references == [first] + references[1..];
    }
  }

  ghost predicate AllKeepFace(w: Workspace, config: Path) {
    config in w.configs &&
    forall i :: 0 <= i < |w.configs[config].references| ==> KeepsFace(w, config, w.configs[config].references[i].target)
  }

  lemma {:induction false} NoComplaintsIff(w: Workspace, config: Path, references: seq<Reference>)
    requires config in w.configs && LongestFirst(w.splitRoots)
    ensures Complaints(w, config, references) == []
       <==> forall i :: 0 <= i < |references| ==> KeepsFace(w, config, references[i].target)
  {
    if references != [] {
      NoComplaintIff(w, config, references[0]);
      NoComplaintsIff(w, config, references[1..]);
      assert references == [references[0]] + references[1..];
    }
  }

  // An exact report is empty exactly if every reference of every reachable config keeps the face.
  lemma CleanIff(w: Workspace, violations: seq<Violation>)
    requires LongestFirst(w.splitRoots) && Exact(w, violations)
    ensures violations == [] <==> forall config :: Visitable(w, config) ==> AllKeepFace(w, config)
  {
    forall config | Visitable(w, config)
      ensures AllKeepFace(w, config) <==> Complaints(w, config, w.configs[config].references) == []
    {
      NoComplaintsIff(w, config, w.configs[config].references);
    }
    if violations == [] {
      forall config | Visitable(w, config) ensures Complaints(w, config, w.configs[config].references) == [] {
        NoneOfConfig(w, violations, config);
      }
    } else {
      var v := violations[0];
      assert multiset(violations)[v] > 0;
      assert v in Complaints(w, v.config, w.configs[v.config].references);
    }
  }

  lemma NoneOfConfig(w: Workspace, violations: seq<Violation>, config: Path)
    requires Exact(w, violations) && violations == [] && Visitable(w, config)
    ensures Complaints(w, config, w.configs[config].references) == []
  {
    var own := Complaints(w, config, w.configs[config].references);
    forall v ensures v !in own {
      assert multiset(violations)[v] == 0;
      assert v in own ==> v.config == config;
    }
    FirstIsMember(own);
  }
}
