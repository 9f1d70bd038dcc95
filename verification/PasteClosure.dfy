// The declarations a config type is pasted with: the worklist that follows package-local type
// references, pastes each declaration once and refuses ambiguous names.
module PasteClosure {
  import opened Options
  import opened Selections
  import opened Digraphs
  import opened ConfigTypes

  datatype ImportRef = ImportRef(imported: string, specifier: string)

  // What a name used in a file resolves to: the declaration of that name in some file of the
  // package, an import from elsewhere, or nothing.
  datatype Origin = Declared(file: string) | Imported(ref: ImportRef) | Unresolved

  // Name resolution and the type names each declaration mentions, as the parsed package has them.
  datatype Package = Package(origins: map<Site, Origin>, mentions: map<Site, seq<string>>)

  predicate IsGlobal(name: string) {
    name in {
      "Array", "ReadonlyArray", "Record", "Partial", "Required", "Readonly", "Pick", "Omit",
      "Promise", "Map", "Set", "Date", "Error", "RegExp", "Exclude", "Extract", "NonNullable",
      "ReturnType", "Parameters", "AbortSignal", "URL", "Buffer", "NodeJS", "Iterable", "AsyncIterable"
    }
  }

  function OriginOf(p: Package, use: Site): Origin {
    if use in p.origins then p.origins[use] else Unresolved
  }

  function MentionsOf(p: Package, decl: Site): seq<string> {
    if decl in p.mentions then p.mentions[decl] else []
  }

  // The uses a declaration adds to the queue: its non-global mentions, seen from its own file.
  function UsesIn(file: string, names: seq<string>): (uses: seq<Site>)
    ensures forall u :: u in uses <==> u.file == file && u.name in names && !IsGlobal(u.name)
  {
    if names == [] then []
    else (if IsGlobal(names[0]) then [] else [Site(file, names[0])]) + UsesIn(file, names[1..])
  }

  function UsesOf(p: Package, decl: Site): seq<Site> {
    UsesIn(decl.file, MentionsOf(p, decl))
  }

  // A resolved use leads on to the uses of the declaration it denotes.
  ghost function UseGraph(p: Package): Graph<Site> {
    map use | use in p.origins ::
      if p.origins[use].Declared? then UsesOf(p, Site(p.origins[use].file, use.name)) else []
  }

  ghost predicate Used(p: Package, root: Site, use: Site) {
    Reaches(UseGraph(p), root, use)
  }

  // The declarations and imports the config type stands for, whatever order they are met in.
  ghost predicate InClosure(p: Package, root: Site, decl: Site) {
    exists use :: Used(p, root, use) && ResolvesTo(p, use, Declared(decl.file)) && use.name == decl.name
  }

  ghost predicate ImportedAs(p: Package, root: Site, name: string, ref: ImportRef) {
    exists use :: Used(p, root, use) && ResolvesTo(p, use, Imported(ref)) && use.name == name
  }

  ghost predicate ResolvesTo(p: Package, use: Site, origin: Origin) {
    use in p.origins && p.origins[use] == origin
  }

  // Every used name resolves, the config type is local, and one name always means one thing.
  ghost predicate Unambiguous(p: Package, root: Site) {
    && root in p.origins && p.origins[root].Declared?
    && (forall use :: Used(p, root, use) ==> use in p.origins && !p.origins[use].Unresolved?)
    && (forall a, b :: Used(p, root, a) && Used(p, root, b) && a.name == b.name ==> p.origins[a] == p.origins[b])
  }

  datatype Violation =
    | NotFound(use: Site)
    | ConfigTypeImported(use: Site)
    | DeclarationAndImport(use: Site)
    | TwoImports(use: Site)
    | TwoDeclarations(use: Site)

  datatype Tables = Tables(pasted: map<string, Site>, refs: map<string, ImportRef>)

  function WithImport(t: Tables, name: string, ref: ImportRef): Tables {
    t.(refs := t.refs[name := ref])
  }

  function WithPaste(t: Tables, decl: Site): Tables {
    t.(pasted := t.pasted[decl.name := decl])
  }

  // The tables record the origin of a use.
  ghost predicate Recorded(p: Package, t: Tables, use: Site) {
    match OriginOf(p, use)
    case Declared(file) => use.name in t.pasted && t.pasted[use.name] == Site(file, use.name)
    case Imported(ref) => use.name in t.refs && t.refs[use.name] == ref
    case Unresolved => false
  }

  ghost predicate DeclaredBy(p: Package, done: set<Site>, decl: Site) {
    exists use :: use in done && use.name == decl.name && OriginOf(p, use) == Declared(decl.file)
  }

  ghost predicate ImportedBy(p: Package, done: set<Site>, name: string, ref: ImportRef) {
    exists use :: use in done && use.name == name && OriginOf(p, use) == Imported(ref)
  }

  // Every entry of the tables comes from a processed use, and no name has two entries.
  ghost predicate TablesJustified(p: Package, t: Tables, done: set<Site>) {
    && (forall n :: n in t.pasted ==> t.pasted[n].name == n)
    && (forall n {:trigger DeclaredBy(p, done, t.pasted[n])} :: n in t.pasted ==> DeclaredBy(p, done, t.pasted[n]))
    && (forall n {:trigger ImportedBy(p, done, n, t.refs[n])} :: n in t.refs ==> ImportedBy(p, done, n, t.refs[n]))
    && t.pasted.Keys !! t.refs.Keys
  }

  ghost predicate AllUsed(p: Package, root: Site, done: set<Site>, queue: seq<Site>) {
    && (forall use :: use in done ==> Used(p, root, use))
    && (forall use :: use in queue ==> Used(p, root, use))
    && (root in done || root in queue)
  }

  // The uses of every pasted declaration are processed or queued.
  ghost predicate PastedFollowed(p: Package, t: Tables, done: set<Site>, queue: seq<Site>) {
    forall n, use :: n in t.pasted && use in UsesOf(p, t.pasted[n]) ==> use in done || use in queue
  }

  ghost predicate PastesMatch(t: Tables, pastes: seq<Site>) {
    && Distinct(pastes)
    && (forall d :: d in pastes <==> d.name in t.pasted && t.pasted[d.name] == d)
  }

  lemma UseLeadsOn(p: Package, root: Site, use: Site, file: string, next: Site)
    requires Used(p, root, use) && OriginOf(p, use) == Declared(file) && next in UsesOf(p, Site(file, use.name))
    ensures Used(p, root, next)
  {
    assert IsEdge(UseGraph(p), use, next);
    ReachesStep(UseGraph(p), root, use, next);
  }

  // ---- The loop invariant ----

  ghost predicate Verdicts(p: Package, root: Site, t: Tables, done: set<Site>, violations: seq<Violation>) {
    && (violations == [] ==> forall use :: use in done ==> Recorded(p, t, use))
    && (violations != [] ==> !Unambiguous(p, root))
  }

  ghost predicate LoopInvariant(p: Package, root: Site, t: Tables, done: set<Site>, queue: seq<Site>, pastes: seq<Site>,
                                violations: seq<Violation>)
  {
    && TablesJustified(p, t, done)
    && AllUsed(p, root, done, queue)
    && PastedFollowed(p, t, done, queue)
    && PastesMatch(t, pastes)
    && Verdicts(p, root, t, done, violations)
    && root.name !in t.refs
  }

  lemma HeadOrTail<T>(s: seq<T>)
    requires s != []
    ensures forall x :: x in s <==> x == s[0] || x in s[1..]
  {
    assert s == [s[0]] + s[1..];
  }

  lemma Dequeue(p: Package, root: Site, t: Tables, done: set<Site>, queue: seq<Site>)
    requires queue != [] && AllUsed(p, root, done, queue) && PastedFollowed(p, t, done, queue)
    ensures AllUsed(p, root, done + {queue[0]}, queue[1..]) && PastedFollowed(p, t, done + {queue[0]}, queue[1..])
  {
    HeadOrTail(queue);
    assert forall use :: use in done || use in queue ==> use in done + {queue[0]} || use in queue[1..];
  }

  // A use whose origin contradicts what a table justifies makes the closure ambiguous.
  lemma Contradicts(p: Package, root: Site, done: set<Site>, use: Site, other: Site)
    requires forall u :: u in done ==> Used(p, root, u)
    requires use in done && other in done && use.name == other.name && OriginOf(p, use) != OriginOf(p, other)
    ensures !Unambiguous(p, root)
  {
    assert Used(p, root, use) && Used(p, root, other);
  }

  lemma StillJustified(p: Package, t: Tables, done: set<Site>, use: Site)
    requires TablesJustified(p, t, done)
    ensures TablesJustified(p, t, done + {use})
  {
    var more := done + {use};
    forall n | n in t.pasted ensures DeclaredBy(p, more, t.pasted[n]) {
      assert DeclaredBy(p, done, t.pasted[n]);
      var u :| u in done && u.name == n && OriginOf(p, u) == Declared(t.pasted[n].file);
      assert u in more;
    }
    forall n | n in t.refs ensures ImportedBy(p, more, n, t.refs[n]) {
      assert ImportedBy(p, done, n, t.refs[n]);
      var u :| u in done && u.name == n && OriginOf(p, u) == Imported(t.refs[n]);
      assert u in more;
    }
  }

  // A use that is refused: it does not resolve, or the tables already hold another meaning.
  ghost predicate Refused(p: Package, typeName: string, t: Tables, use: Site) {
    match OriginOf(p, use)
    case Unresolved => true
    case Imported(ref) =>
      use.name == typeName || use.name in t.pasted || (use.name in t.refs && t.refs[use.name] != ref)
    case Declared(file) =>
      (use.name in t.pasted && t.pasted[use.name] != Site(file, use.name)) || use.name in t.refs
  }

  lemma RefusedIsAmbiguous(p: Package, root: Site, t: Tables, done: set<Site>, use: Site)
    requires forall u :: u in done ==> Used(p, root, u)
    requires use in done && TablesJustified(p, t, done) && Refused(p, root.name, t, use)
    ensures !Unambiguous(p, root)
  {
    assert Used(p, root, use);
    if OriginOf(p, use).Imported? && use.name == root.name {
      ReachesSelf(UseGraph(p), root);
      assert Used(p, root, root);
    } else if !OriginOf(p, use).Unresolved? {
      var other: Site;
      if use.name in t.pasted {
        assert DeclaredBy(p, done, t.pasted[use.name]);
        other :| other in done && other.name == use.name && OriginOf(p, other) == Declared(t.pasted[use.name].file);
      } else {
        assert ImportedBy(p, done, use.name, t.refs[use.name]);
        other :| other in done && other.name == use.name && OriginOf(p, other) == Imported(t.refs[use.name]);
      }
      Contradicts(p, root, done, use, other);
    }
  }

  lemma RefuseKeepsInvariant(p: Package, root: Site, t: Tables, done: set<Site>, queue: seq<Site>, pastes: seq<Site>,
                             violations: seq<Violation>, v: Violation)
    requires queue != [] && LoopInvariant(p, root, t, done, queue, pastes, violations)
    requires Refused(p, root.name, t, queue[0])
    ensures LoopInvariant(p, root, t, done + {queue[0]}, queue[1..], pastes, violations + [v])
  {
    Dequeue(p, root, t, done, queue);
    StillJustified(p, t, done, queue[0]);
    RefusedIsAmbiguous(p, root, t, done + {queue[0]}, queue[0]);
  }

  // Reached again with the same meaning.
  lemma RepeatKeepsInvariant(p: Package, root: Site, t: Tables, done: set<Site>, queue: seq<Site>, pastes: seq<Site>,
                             violations: seq<Violation>)
    requires queue != [] && LoopInvariant(p, root, t, done, queue, pastes, violations)
    requires Recorded(p, t, queue[0])
    ensures LoopInvariant(p, root, t, done + {queue[0]}, queue[1..], pastes, violations)
  {
    Dequeue(p, root, t, done, queue);
    StillJustified(p, t, done, queue[0]);
  }

  lemma ImportKeepsInvariant(p: Package, root: Site, t: Tables, done: set<Site>, queue: seq<Site>, pastes: seq<Site>,
                             violations: seq<Violation>, ref: ImportRef)
    requires queue != [] && LoopInvariant(p, root, t, done, queue, pastes, violations)
    requires OriginOf(p, queue[0]) == Imported(ref) && !Refused(p, root.name, t, queue[0])
    ensures LoopInvariant(p, root, WithImport(t, queue[0].name, ref), done + {queue[0]}, queue[1..], pastes, violations)
  {
    var use, done' := queue[0], done + {queue[0]};
    Dequeue(p, root, t, done, queue);
    StillJustified(p, t, done, use);
    ImportJustified(p, t, done', use, ref);
    ImportRecorded(p, root, t, done, violations, use, ref);
    ImportChangesRefs(p, t, done', queue[1..], pastes, use.name, ref);
  }

  lemma ImportJustified(p: Package, t: Tables, done: set<Site>, use: Site, ref: ImportRef)
    requires TablesJustified(p, t, done) && use in done && OriginOf(p, use) == Imported(ref) && use.name !in t.pasted
    ensures TablesJustified(p, WithImport(t, use.name, ref), done)
  {
    var t' := WithImport(t, use.name, ref);
    forall n | n in t'.refs ensures ImportedBy(p, done, n, t'.refs[n]) {
      if n != use.name { assert ImportedBy(p, done, n, t.refs[n]); }
    }
    forall n | n in t'.pasted ensures DeclaredBy(p, done, t'.pasted[n]) {
      assert DeclaredBy(p, done, t.pasted[n]);
    }
  }

  lemma ImportRecorded(p: Package, root: Site, t: Tables, done: set<Site>, violations: seq<Violation>, use: Site,
                       ref: ImportRef)
    requires Verdicts(p, root, t, done, violations)
    requires OriginOf(p, use) == Imported(ref) && (use.name in t.refs ==> t.refs[use.name] == ref)
    ensures Verdicts(p, root, WithImport(t, use.name, ref), done + {use}, violations)
  {
    forall u | Recorded(p, t, u) ensures Recorded(p, WithImport(t, use.name, ref), u) {}
  }

  lemma ImportChangesRefs(p: Package, t: Tables, done: set<Site>, queue: seq<Site>, pastes: seq<Site>, name: string,
                          ref: ImportRef)
    requires PastedFollowed(p, t, done, queue) && PastesMatch(t, pastes)
    ensures PastedFollowed(p, WithImport(t, name, ref), done, queue) && PastesMatch(WithImport(t, name, ref), pastes)
  {
  }

  lemma PasteKeepsInvariant(p: Package, root: Site, t: Tables, done: set<Site>, queue: seq<Site>, pastes: seq<Site>,
                            violations: seq<Violation>, decl: Site)
    requires queue != [] && LoopInvariant(p, root, t, done, queue, pastes, violations)
    requires decl.name == queue[0].name && OriginOf(p, queue[0]) == Declared(decl.file)
    requires decl.name !in t.pasted && decl.name !in t.refs
    ensures LoopInvariant(p, root, WithPaste(t, decl), done + {queue[0]},
                          queue[1..] + UsesOf(p, decl), pastes + [decl], violations)
  {
    var use, done' := queue[0], done + {queue[0]};
    Dequeue(p, root, t, done, queue);
    StillJustified(p, t, done, use);
    assert Used(p, root, use);
    forall next | next in UsesOf(p, decl) ensures Used(p, root, next) {
      UseLeadsOn(p, root, use, decl.file, next);
    }
    PasteFollowed(p, t, done', queue[1..], decl);
    PasteJustified(p, t, done', use, decl);
    PasteMatches(t, pastes, decl);
    PasteRecorded(p, root, t, done, violations, use, decl);
  }

  lemma PasteRecorded(p: Package, root: Site, t: Tables, done: set<Site>, violations: seq<Violation>, use: Site,
                      decl: Site)
    requires Verdicts(p, root, t, done, violations)
    requires OriginOf(p, use) == Declared(decl.file) && decl.name == use.name && decl.name !in t.pasted
    ensures Verdicts(p, root, WithPaste(t, decl), done + {use}, violations)
  {
    forall u | Recorded(p, t, u) ensures Recorded(p, WithPaste(t, decl), u) {}
  }

  lemma PasteJustified(p: Package, t: Tables, done: set<Site>, use: Site, decl: Site)
    requires TablesJustified(p, t, done) && use in done
    requires decl.name == use.name && OriginOf(p, use) == Declared(decl.file) && decl.name !in t.refs
    ensures TablesJustified(p, WithPaste(t, decl), done)
  {
    var t' := WithPaste(t, decl);
    forall n | n in t'.pasted ensures DeclaredBy(p, done, t'.pasted[n]) {
      if n != decl.name { assert DeclaredBy(p, done, t.pasted[n]); }
    }
    forall n | n in t'.refs ensures ImportedBy(p, done, n, t'.refs[n]) {
      assert ImportedBy(p, done, n, t.refs[n]);
    }
  }

  lemma PasteFollowed(p: Package, t: Tables, done: set<Site>, queue: seq<Site>, decl: Site)
    requires PastedFollowed(p, t, done, queue)
    ensures PastedFollowed(p, WithPaste(t, decl), done, queue + UsesOf(p, decl))
  {
    var t' := WithPaste(t, decl);
    forall n, use | n in t'.pasted && use in UsesOf(p, t'.pasted[n])
      ensures use in done || use in queue + UsesOf(p, decl)
    {
      if n != decl.name { assert use in UsesOf(p, t.pasted[n]); }
    }
  }

  lemma PasteMatches(t: Tables, pastes: seq<Site>, decl: Site)
    requires PastesMatch(t, pastes) && decl.name !in t.pasted
    ensures PastesMatch(WithPaste(t, decl), pastes + [decl])
  {
    assert decl !in pastes;
  }

  // ---- The loop ----

  // The names that can ever be queued.
  ghost function AllNames(p: Package, root: Site): set<string> {
    {root.name} + set d, n | d in p.mentions && n in p.mentions[d] :: n
  }

  ghost predicate NamesKnown(p: Package, root: Site, pasted: map<string, Site>, queue: seq<Site>) {
    && pasted.Keys <= AllNames(p, root)
    && forall use :: use in queue ==> use.name in AllNames(p, root)
  }

  lemma TailKnown(p: Package, root: Site, pasted: map<string, Site>, queue: seq<Site>)
    requires queue != [] && NamesKnown(p, root, pasted, queue)
    ensures NamesKnown(p, root, pasted, queue[1..])
  {
    HeadOrTail(queue);
  }

  lemma UsesKnown(p: Package, root: Site, decl: Site)
    ensures forall use :: use in UsesOf(p, decl) ==> use.name in AllNames(p, root)
  {
    forall use | use in UsesOf(p, decl) ensures use.name in AllNames(p, root) {
      assert use.name in MentionsOf(p, decl) && decl in p.mentions;
    }
  }

  lemma PasteKnown(p: Package, root: Site, t: Tables, queue: seq<Site>, decl: Site)
    requires queue != [] && NamesKnown(p, root, t.pasted, queue) && decl.name == queue[0].name
    ensures NamesKnown(p, root, WithPaste(t, decl).pasted, queue[1..] + UsesOf(p, decl))
  {
    HeadOrTail(queue);
    UsesKnown(p, root, decl);
  }

  // The config type's own declaration is the first paste, once its use has been taken.
  ghost predicate ConfigFirst(root: Site, file: string, t: Tables, queue: seq<Site>, pastes: seq<Site>) {
    if pastes == [] then queue != [] && queue[0] == root && t == Tables(map[], map[])
    else pastes[0] == Site(file, root.name)
  }

  // The first use is neither refused nor an import nor a repetition.
  lemma FirstIsPasted(p: Package, root: Site, file: string, t: Tables, queue: seq<Site>, pastes: seq<Site>)
    requires OriginOf(p, root) == Declared(file) && ConfigFirst(root, file, t, queue, pastes) && queue != []
    requires Refused(p, root.name, t, queue[0]) || OriginOf(p, queue[0]).Imported? || Recorded(p, t, queue[0])
    ensures pastes != [] && pastes[0] == Site(file, root.name)
  {
  }

  // What the queue keeps between two rounds, and what each kind of round does with it.
  ghost predicate QueueInvariant(p: Package, root: Site, t: Tables, done: set<Site>, queue: seq<Site>,
                                 pastes: seq<Site>, violations: seq<Violation>)
  {
    && LoopInvariant(p, root, t, done, queue, pastes, violations)
    && NamesKnown(p, root, t.pasted, queue)
    && (OriginOf(p, root).Declared? ==> ConfigFirst(root, OriginOf(p, root).file, t, queue, pastes))
  }

  lemma AfterRefusal(p: Package, root: Site, t: Tables, done: set<Site>, queue: seq<Site>, pastes: seq<Site>,
                     violations: seq<Violation>, v: Violation)
    requires queue != [] && QueueInvariant(p, root, t, done, queue, pastes, violations)
    requires Refused(p, root.name, t, queue[0])
    ensures QueueInvariant(p, root, t, done + {queue[0]}, queue[1..], pastes, violations + [v])
  {
    if OriginOf(p, root).Declared? { FirstIsPasted(p, root, OriginOf(p, root).file, t, queue, pastes); }
    RefuseKeepsInvariant(p, root, t, done, queue, pastes, violations, v);
    TailKnown(p, root, t.pasted, queue);
  }

  lemma AfterRepetition(p: Package, root: Site, t: Tables, done: set<Site>, queue: seq<Site>, pastes: seq<Site>,
                        violations: seq<Violation>)
    requires queue != [] && QueueInvariant(p, root, t, done, queue, pastes, violations)
    requires Recorded(p, t, queue[0])
    ensures QueueInvariant(p, root, t, done + {queue[0]}, queue[1..], pastes, violations)
  {
    if OriginOf(p, root).Declared? { FirstIsPasted(p, root, OriginOf(p, root).file, t, queue, pastes); }
    RepeatKeepsInvariant(p, root, t, done, queue, pastes, violations);
    TailKnown(p, root, t.pasted, queue);
  }

  lemma AfterImport(p: Package, root: Site, t: Tables, done: set<Site>, queue: seq<Site>, pastes: seq<Site>,
                    violations: seq<Violation>, ref: ImportRef)
    requires queue != [] && QueueInvariant(p, root, t, done, queue, pastes, violations)
    requires OriginOf(p, queue[0]) == Imported(ref) && !Refused(p, root.name, t, queue[0])
    ensures QueueInvariant(p, root, WithImport(t, queue[0].name, ref), done + {queue[0]}, queue[1..], pastes,
                           violations)
  {
    if OriginOf(p, root).Declared? { FirstIsPasted(p, root, OriginOf(p, root).file, t, queue, pastes); }
    ImportKeepsInvariant(p, root, t, done, queue, pastes, violations, ref);
    TailKnown(p, root, t.pasted, queue);
  }

  lemma AfterPaste(p: Package, root: Site, t: Tables, done: set<Site>, queue: seq<Site>, pastes: seq<Site>,
                   violations: seq<Violation>, decl: Site)
    requires queue != [] && QueueInvariant(p, root, t, done, queue, pastes, violations)
    requires decl.name == queue[0].name && OriginOf(p, queue[0]) == Declared(decl.file)
    requires decl.name !in t.pasted && decl.name !in t.refs
    ensures QueueInvariant(p, root, WithPaste(t, decl), done + {queue[0]}, queue[1..] + UsesOf(p, decl),
                           pastes + [decl], violations)
  {
    PasteKeepsInvariant(p, root, t, done, queue, pastes, violations, decl);
    PasteKnown(p, root, t, queue, decl);
    assert pastes != [] ==> (pastes + [decl])[0] == pastes[0];
  }

  // ---- What a list of uses comes to, without a queue ----

  // What each name stands for, the declarations and the complaints met, in their order.
  datatype Reading = Reading(meaning: map<string, Origin>, decls: seq<Site>, complaints: seq<Violation>)

  // A use that does not resolve, imports the config type, or whose name stands for something else.
  ghost function Complaint(p: Package, typeName: string, meaning: map<string, Origin>, use: Site): Option<Violation> {
    match OriginOf(p, use)
    case Unresolved => Some(NotFound(use))
    case Imported(ref) =>
      if use.name == typeName then Some(ConfigTypeImported(use))
      else if use.name !in meaning || meaning[use.name] == Imported(ref) then None
      else if meaning[use.name].Imported? then Some(TwoImports(use)) else Some(DeclarationAndImport(use))
    case Declared(file) =>
      if use.name !in meaning || meaning[use.name] == Declared(file) then None
      else if meaning[use.name].Declared? then Some(TwoDeclarations(use)) else Some(DeclarationAndImport(use))
  }

  // The first use without complaint gives its name a meaning.
  ghost function ReadNext(p: Package, typeName: string, r: Reading, use: Site): Reading {
    match Complaint(p, typeName, r.meaning, use)
    case Some(v) => r.(complaints := r.complaints + [v])
    case None =>
      if use.name in r.meaning then r
      else
        match OriginOf(p, use)
        case Declared(file) =>
          Reading(r.meaning[use.name := Declared(file)], r.decls + [Site(file, use.name)], r.complaints)
        case origin => r.(meaning := r.meaning[use.name := origin])
  }

  ghost function Read(p: Package, typeName: string, uses: seq<Site>): Reading {
    if uses == [] then Reading(map[], [], [])
    else ReadNext(p, typeName, Read(p, typeName, uses[..|uses| - 1]), uses[|uses| - 1])
  }

  // The use of the config type and the uses of the declarations, one after the other.
  ghost function AllUses(p: Package, root: Site, decls: seq<Site>): seq<Site> {
    if decls == [] then [root] else AllUses(p, root, decls[..|decls| - 1]) + UsesOf(p, decls[|decls| - 1])
  }

  ghost function TablesOf(meaning: map<string, Origin>): Tables {
    Tables(map n | n in meaning && meaning[n].Declared? :: Site(meaning[n].file, n),
           map n | n in meaning && meaning[n].Imported? :: meaning[n].ref)
  }

  // The k-th use is the next one of the config type and the declarations met before it.
  ghost predicate IsNext(p: Package, root: Site, taken: seq<Site>, k: nat) {
    k < |taken| &&
    var uses := AllUses(p, root, Read(p, root.name, taken[..k]).decls);
    k < |uses| && taken[k] == uses[k]
  }

  ghost predicate InTurn(p: Package, root: Site, taken: seq<Site>) {
    forall k: nat :: k < |taken| ==> IsNext(p, root, taken, k)
  }

  // The uses have been taken in turn, and this is what they come to.
  ghost predicate History(p: Package, root: Site, t: Tables, taken: seq<Site>, queue: seq<Site>, r: Reading) {
    && InTurn(p, root, taken) && r == Read(p, root.name, taken)
    && taken + queue == AllUses(p, root, r.decls) && t == TablesOf(r.meaning)
  }

  lemma ReadGrows(p: Package, typeName: string, taken: seq<Site>, use: Site)
    ensures Read(p, typeName, taken + [use]) == ReadNext(p, typeName, Read(p, typeName, taken), use)
  {
    assert (taken + [use])[..|taken|] == taken;
  }

  lemma InTurnGrows(p: Package, root: Site, taken: seq<Site>, use: Site)
    requires InTurn(p, root, taken)
    requires var uses := AllUses(p, root, Read(p, root.name, taken).decls);
      |taken| < |uses| && uses[|taken|] == use
    ensures InTurn(p, root, taken + [use])
  {
    var more := taken + [use];
    forall k: nat | k < |more| ensures IsNext(p, root, more, k) {
      if k < |taken| {
        assert IsNext(p, root, taken, k) && more[..k] == taken[..k];
      } else {
        assert more[..k] == taken;
      }
    }
  }

  lemma UsesGrow(p: Package, root: Site, decls: seq<Site>, decl: Site)
    ensures AllUses(p, root, decls + [decl]) == AllUses(p, root, decls) + UsesOf(p, decl)
  {
    assert (decls + [decl])[..|decls|] == decls;
  }

  // The uses of the declaration that the next use adds, if any.
  ghost function NewUses(p: Package, r: Reading, next: Reading): seq<Site> {
    if |next.decls| > |r.decls| then UsesOf(p, next.decls[|r.decls|]) else []
  }

  // What one round does to the history.
  lemma HistoryGrows(p: Package, root: Site, t: Tables, taken: seq<Site>, queue: seq<Site>, r: Reading)
    requires queue != [] && History(p, root, t, taken, queue, r)
    ensures var next := ReadNext(p, root.name, r, queue[0]);
      History(p, root, TablesOf(next.meaning), taken + [queue[0]], queue[1..] + NewUses(p, r, next), next)
  {
    var next := ReadNext(p, root.name, r, queue[0]);
    ReadGrows(p, root.name, taken, queue[0]);
    assert (taken + queue)[|taken|] == queue[0];
    InTurnGrows(p, root, taken, queue[0]);
    TakeHead(taken, queue, NewUses(p, r, next));
    AtMostOneMore(p, root.name, r, queue[0]);
    UsesAfter(p, root, r, next);
  }

  lemma TakeHead(taken: seq<Site>, queue: seq<Site>, more: seq<Site>)
    requires queue != []
    ensures (taken + [queue[0]]) + (queue[1..] + more) == (taken + queue) + more
    ensures taken + queue + [] == taken + queue
  {
  }

  class PasteQueue {
    const pkg: Package
    const root: Site
    var queue: seq<Site>
    var tables: Tables
    var pastes: seq<Site>
    var violations: seq<Violation>
    ghost var taken: seq<Site>
    ghost var meaning: map<string, Origin>

    constructor (pkg: Package, typeName: string, entry: string)
      ensures this.pkg == pkg && root == Site(entry, typeName) && Valid()
    {
      this.pkg, root := pkg, Site(entry, typeName);
      queue, tables, pastes, violations := [Site(entry, typeName)], Tables(map[], map[]), [], [];
      taken, meaning := [], map[];
    }

    ghost function Current(): Reading
      reads this
    {
      Reading(meaning, pastes, violations)
    }

    ghost predicate Valid()
      reads this
    {
      History(pkg, root, tables, taken, queue, Current())
    }

    method Refuse(v: Violation)
      requires Valid() && queue != [] && Complaint(pkg, root.name, meaning, queue[0]) == Some(v)
      modifies this`taken, this`queue, this`violations
      ensures queue == old(queue[1..]) && tables == old(tables) && violations == old(violations) + [v]
      ensures Valid()
    {
      HistoryGrows(pkg, root, tables, taken, queue, Current());
      taken, queue, violations := taken + [queue[0]], queue[1..], violations + [v];
      assert queue + [] == queue;
    }

    method Import(ref: ImportRef)
      requires Valid() && queue != [] && OriginOf(pkg, queue[0]) == Imported(ref)
      requires Complaint(pkg, root.name, meaning, queue[0]).None?
      modifies this`taken, this`meaning, this`queue, this`tables
      ensures Valid() && queue == old(queue[1..])
      ensures tables == Tables(old(tables.pasted), old(tables.refs)[old(queue[0].name) := ref])
    {
      HistoryGrows(pkg, root, tables, taken, queue, Current());
      ImportTable(meaning, queue[0].name, ref);
      meaning := meaning[queue[0].name := Imported(ref)];
      tables := WithImport(tables, queue[0].name, ref);
      taken, queue := taken + [queue[0]], queue[1..];
      assert queue + [] == queue;
    }

    method Repeat()
      requires Valid() && queue != [] && queue[0].name in meaning
      requires Complaint(pkg, root.name, meaning, queue[0]).None?
      modifies this`taken, this`queue
      ensures queue == old(queue[1..]) && tables == old(tables)
      ensures Valid()
    {
      HistoryGrows(pkg, root, tables, taken, queue, Current());
      taken, queue := taken + [queue[0]], queue[1..];
      assert queue + [] == queue;
    }

    method Paste(decl: Site)
      requires Valid() && queue != [] && decl.name == queue[0].name && OriginOf(pkg, queue[0]) == Declared(decl.file)
      requires decl.name !in tables.pasted && decl.name !in tables.refs
      modifies this`taken, this`meaning, this`queue, this`tables, this`pastes
      ensures Valid() && queue == old(queue[1..]) + UsesOf(pkg, decl) && pastes == old(pastes) + [decl]
      ensures tables == Tables(old(tables.pasted)[decl.name := decl], old(tables.refs))
    {
      MeaningKnown(pkg, root.name, taken, decl.name);
      HistoryGrows(pkg, root, tables, taken, queue, Current());
      PasteTable(meaning, decl);
      meaning := meaning[decl.name := Declared(decl.file)];
      tables, pastes := WithPaste(tables, decl), pastes + [decl];
      taken, queue := taken + [queue[0]], queue[1..] + UsesOf(pkg, decl);
    }

    // One round of the loop.
    method Take()
      requires Valid() && queue != []
      modifies this
      ensures Valid()
      ensures (tables.pasted == old(tables.pasted) && queue == old(queue[1..]))
           || old(tables.pasted.Keys) < tables.pasted.Keys
    {
      match OriginOf(pkg, queue[0]) {
        case Unresolved => Refuse(NotFound(queue[0]));
        case Imported(ref) => TakeImport(ref);
        case Declared(file) => TakeDeclaration(Site(file, queue[0].name));
      }
    }

    method TakeImport(ref: ImportRef)
      requires Valid() && queue != [] && OriginOf(pkg, queue[0]) == Imported(ref)
      modifies this
      ensures Valid() && tables.pasted == old(tables.pasted) && queue == old(queue[1..])
    {
      var use := queue[0];
      MeaningKnown(pkg, root.name, taken, use.name);
      if use.name == root.name {
        Refuse(ConfigTypeImported(use));
      } else if use.name in tables.pasted {
        Refuse(DeclarationAndImport(use));
      } else if use.name in tables.refs && tables.refs[use.name] != ref {
        Refuse(TwoImports(use));
      } else {
        Import(ref);
      }
    }

    method TakeDeclaration(decl: Site)
      requires Valid() && queue != [] && OriginOf(pkg, queue[0]) == Declared(decl.file) && decl.name == queue[0].name
      modifies this
      ensures Valid()
      ensures (tables.pasted == old(tables.pasted) && queue == old(queue[1..]))
           || old(tables.pasted.Keys) < tables.pasted.Keys
    {
      if decl.name in tables.pasted || decl.name in tables.refs {
        TakeKnown(decl);
      } else {
        Paste(decl);
      }
    }

    // The name already stands for something: this declaration, another one or an import.
    method TakeKnown(decl: Site)
      requires Valid() && queue != [] && OriginOf(pkg, queue[0]) == Declared(decl.file) && decl.name == queue[0].name
      requires decl.name in tables.pasted || decl.name in tables.refs
      modifies this
      ensures tables.pasted == old(tables.pasted) && queue == old(queue[1..])
      ensures Valid()
    {
      if decl.name !in tables.pasted {
        Refuse(DeclarationAndImport(queue[0]));
      } else if tables.pasted[decl.name] == decl {
        Repeat();
      } else {
        Refuse(TwoDeclarations(queue[0]));
      }
    }

    // The loop ends although types may be recursive: a name is pasted at most once.
    method Drain()
      requires Valid()
      modifies this
      ensures Valid() && queue == []
    {
      while queue != []
        invariant Valid()
        decreases AllNames(pkg, root) - tables.pasted.Keys, |queue|
      {
        PastedAreNames(pkg, root, taken, queue);
        Take();
        PastedAreNames(pkg, root, taken, queue);
      }
    }
  }

  lemma ImportTable(meaning: map<string, Origin>, name: string, ref: ImportRef)
    requires name in meaning ==> meaning[name] == Imported(ref)
    ensures TablesOf(meaning[name := Imported(ref)]) == WithImport(TablesOf(meaning), name, ref)
    ensures name in meaning ==> meaning[name := Imported(ref)] == meaning
  {
  }

  lemma PasteTable(meaning: map<string, Origin>, decl: Site)
    requires decl.name !in meaning
    ensures TablesOf(meaning[decl.name := Declared(decl.file)]) == WithPaste(TablesOf(meaning), decl)
  {
  }

  lemma {:induction false} MeaningKnown(p: Package, typeName: string, taken: seq<Site>, name: string)
    ensures var meaning := Read(p, typeName, taken).meaning;
      name in meaning ==> !meaning[name].Unresolved? && exists use :: use in taken && use.name == name
  {
    if taken != [] {
      var front, use := taken[..|taken| - 1], taken[|taken| - 1];
      MeaningKnown(p, typeName, front, name);
      assert taken == front + [use];
      if use.name == name { assert use in taken; }
    }
  }

  lemma {:induction false} UsesAreNames(p: Package, root: Site, decls: seq<Site>)
    ensures forall use :: use in AllUses(p, root, decls) ==> use.name in AllNames(p, root)
  {
    if decls != [] {
      UsesAreNames(p, root, decls[..|decls| - 1]);
      UsesKnown(p, root, decls[|decls| - 1]);
    }
  }

  lemma PastedAreNames(p: Package, root: Site, taken: seq<Site>, queue: seq<Site>)
    requires taken + queue == AllUses(p, root, Read(p, root.name, taken).decls)
    ensures TablesOf(Read(p, root.name, taken).meaning).pasted.Keys <= AllNames(p, root)
  {
    var r := Read(p, root.name, taken);
    UsesAreNames(p, root, r.decls);
    forall n | n in r.meaning ensures n in AllNames(p, root) {
      MeaningKnown(p, root.name, taken, n);
      var use :| use in taken && use.name == n;
      assert use in taken + queue;
    }
  }

  // ---- What the history means ----

  ghost function Met(taken: seq<Site>): set<Site> {
    set use | use in taken
  }

  // Once these uses have been taken the queue holds the rest of the uses.
  ghost function Rest(p: Package, root: Site, taken: seq<Site>, r: Reading): seq<Site> {
    var uses := AllUses(p, root, r.decls);
    if |taken| <= |uses| then uses[|taken|..] else []
  }

  ghost predicate HoldsAfter(p: Package, root: Site, taken: seq<Site>) {
    HoldsWith(p, root, Met(taken), Rest(p, root, taken, Read(p, root.name, taken)), Read(p, root.name, taken))
  }

  ghost predicate HoldsWith(p: Package, root: Site, done: set<Site>, queue: seq<Site>, r: Reading) {
    QueueInvariant(p, root, TablesOf(r.meaning), done, queue, r.decls, r.complaints)
  }

  lemma {:induction false} InvariantAfter(p: Package, root: Site, taken: seq<Site>)
    requires InTurn(p, root, taken)
    ensures HoldsAfter(p, root, taken)
  {
    if taken == [] {
      HoldsAtStart(p, root);
    } else {
      var front, last := taken[..|taken| - 1], taken[|taken| - 1];
      LastInTurn(p, root, taken);
      InvariantAfter(p, root, front);
      HoldsNext(p, root, front, last);
      assert taken == front + [last];
    }
  }

  lemma LastInTurn(p: Package, root: Site, taken: seq<Site>)
    requires InTurn(p, root, taken) && taken != []
    ensures var front := taken[..|taken| - 1];
      && InTurn(p, root, front)
      && var uses := AllUses(p, root, Read(p, root.name, front).decls);
         |front| < |uses| && uses[|front|] == taken[|taken| - 1]
  {
    var front := taken[..|taken| - 1];
    assert IsNext(p, root, taken, |front|);
    forall k: nat | k < |front| ensures IsNext(p, root, front, k) {
      assert IsNext(p, root, taken, k) && taken[..k] == front[..k];
    }
  }

  lemma HoldsNext(p: Package, root: Site, taken: seq<Site>, use: Site)
    requires HoldsAfter(p, root, taken)
    requires var uses := AllUses(p, root, Read(p, root.name, taken).decls); |taken| < |uses| && uses[|taken|] == use
    ensures HoldsAfter(p, root, taken + [use])
  {
    var r := Read(p, root.name, taken);
    var next, queue := ReadNext(p, root.name, r, use), Rest(p, root, taken, r);
    RestAfter(p, root, taken, use);
    MeaningsKnown(p, root.name, taken);
    InvariantGrows(p, root, Met(taken), queue, r);
    SameInvariant(p, root, Met(taken) + {use}, Met(taken + [use]), queue[1..] + NewUses(p, r, next),
                  Rest(p, root, taken + [use], next), next, Read(p, root.name, taken + [use]));
  }

  lemma SameInvariant(p: Package, root: Site, done: set<Site>, done': set<Site>, queue: seq<Site>, queue': seq<Site>,
                      r: Reading, r': Reading)
    requires done == done' && queue == queue' && r == r' && HoldsWith(p, root, done, queue, r)
    ensures HoldsWith(p, root, done', queue', r')
  {
  }

  lemma RestAfter(p: Package, root: Site, taken: seq<Site>, use: Site)
    requires var uses := AllUses(p, root, Read(p, root.name, taken).decls); |taken| < |uses| && uses[|taken|] == use
    ensures var r := Read(p, root.name, taken);
      var queue, next := Rest(p, root, taken, r), ReadNext(p, root.name, r, use);
      && queue != [] && queue[0] == use && Read(p, root.name, taken + [use]) == next
      && Met(taken + [use]) == Met(taken) + {use}
      && Rest(p, root, taken + [use], next) == queue[1..] + NewUses(p, r, next)
  {
    var r := Read(p, root.name, taken);
    ReadGrows(p, root.name, taken, use);
    AtMostOneMore(p, root.name, r, use);
    RestFollows(p, root, taken, use, r, ReadNext(p, root.name, r, use));
  }

  ghost predicate AddsOne(r: Reading, next: Reading) {
    next.decls == r.decls || (|next.decls| == |r.decls| + 1 && next.decls == r.decls + [next.decls[|r.decls|]])
  }

  lemma AtMostOneMore(p: Package, typeName: string, r: Reading, use: Site)
    ensures AddsOne(r, ReadNext(p, typeName, r, use))
  {
  }

  lemma RestFollows(p: Package, root: Site, taken: seq<Site>, use: Site, r: Reading, next: Reading)
    requires var uses := AllUses(p, root, r.decls); |taken| < |uses| && uses[|taken|] == use
    requires AddsOne(r, next)
    ensures Met(taken + [use]) == Met(taken) + {use}
    ensures var queue := Rest(p, root, taken, r);
      queue != [] && queue[0] == use && Rest(p, root, taken + [use], next) == queue[1..] + NewUses(p, r, next)
  {
    UsesAfter(p, root, r, next);
    RestGrows(p, root, taken, use, r, next, AllUses(p, root, r.decls), AllUses(p, root, next.decls));
  }

  lemma UsesAfter(p: Package, root: Site, r: Reading, next: Reading)
    requires AddsOne(r, next)
    ensures AllUses(p, root, next.decls) == AllUses(p, root, r.decls) + NewUses(p, r, next)
  {
    if next.decls != r.decls { UsesGrow(p, root, r.decls, next.decls[|r.decls|]); }
  }

  lemma RestGrows(p: Package, root: Site, taken: seq<Site>, use: Site, r: Reading, next: Reading, uses: seq<Site>,
                  later: seq<Site>)
    requires uses == AllUses(p, root, r.decls) && later == AllUses(p, root, next.decls)
    requires |taken| < |uses| && uses[|taken|] == use && later == uses + NewUses(p, r, next)
    ensures var queue := Rest(p, root, taken, r);
      queue != [] && queue[0] == use && Rest(p, root, taken + [use], next) == queue[1..] + NewUses(p, r, next)
  {
    DropHead(uses, NewUses(p, r, next), |taken|);
  }

  lemma DropHead(uses: seq<Site>, more: seq<Site>, k: nat)
    requires k < |uses|
    ensures uses[k..][0] == uses[k] && (uses + more)[k + 1..] == uses[k..][1..] + more
  {
  }

  lemma HoldsAtStart(p: Package, root: Site)
    ensures HoldsAfter(p, root, [])
  {
    ReachesSelf(UseGraph(p), root);
    assert AllUses(p, root, [])[0..] == [root] && Met([]) == {} && TablesOf(map[]) == Tables(map[], map[]);
  }

  lemma MeaningsKnown(p: Package, typeName: string, taken: seq<Site>)
    ensures NoneUnresolved(Read(p, typeName, taken).meaning)
  {
    forall n | n in Read(p, typeName, taken).meaning ensures !Read(p, typeName, taken).meaning[n].Unresolved? {
      MeaningKnown(p, typeName, taken, n);
    }
  }

  ghost predicate NoneUnresolved(meaning: map<string, Origin>) {
    forall n :: n in meaning ==> !meaning[n].Unresolved?
  }

  lemma InvariantGrows(p: Package, root: Site, done: set<Site>, queue: seq<Site>, r: Reading)
    requires queue != [] && NoneUnresolved(r.meaning) && HoldsWith(p, root, done, queue, r)
    ensures var next := ReadNext(p, root.name, r, queue[0]);
      HoldsWith(p, root, done + {queue[0]}, queue[1..] + NewUses(p, r, next), next)
  {
    var use, t := queue[0], TablesOf(r.meaning);
    assert queue[1..] + [] == queue[1..];
    match Complaint(p, root.name, r.meaning, use)
    case Some(v) => AfterRefusal(p, root, t, done, queue, r.decls, r.complaints, v);
    case None =>
      match OriginOf(p, use)
      case Imported(ref) =>
        AfterImport(p, root, t, done, queue, r.decls, r.complaints, ref);
        ImportTable(r.meaning, use.name, ref);
      case Declared(file) =>
        if use.name in r.meaning {
          AfterRepetition(p, root, t, done, queue, r.decls, r.complaints);
        } else {
          AfterPaste(p, root, t, done, queue, r.decls, r.complaints, Site(file, use.name));
          PasteTable(r.meaning, Site(file, use.name));
        }
  }

  lemma InvariantAtEnd(p: Package, root: Site, t: Tables, taken: seq<Site>, r: Reading)
    requires History(p, root, t, taken, [], r)
    ensures QueueInvariant(p, root, t, Met(taken), [], r.decls, r.complaints)
  {
    InvariantAfter(p, root, taken);
    assert taken + [] == taken;
    assert Rest(p, root, taken, r) == [];
  }

  // What the finished loop reports: a violation exactly when the closure is ambiguous, and
  // otherwise exactly the closure, each declaration once.
  ghost predicate Reported(p: Package, root: Site, pastes: seq<Site>, refs: map<string, ImportRef>,
                           violations: seq<Violation>) {
    && (violations == [] <==> Unambiguous(p, root))
    && (violations == [] ==>
          && Distinct(pastes)
          && (forall d :: d in pastes <==> InClosure(p, root, d))
          && (forall n, ref :: n in refs && refs[n] == ref <==> ImportedAs(p, root, n, ref))
          && (forall d :: d in pastes ==> d.name !in refs)
          && (forall d, e :: d in pastes && e in pastes && d.name == e.name ==> d == e))
  }

  // Exactly what the uses of the config type and of the pastes come to, taken in turn.
  ghost predicate ReportedInTurn(p: Package, root: Site, pastes: seq<Site>, refs: map<string, ImportRef>,
                                 violations: seq<Violation>)
  {
    var uses := AllUses(p, root, pastes);
    var r := Read(p, root.name, uses);
    InTurn(p, root, uses) && pastes == r.decls && violations == r.complaints && refs == TablesOf(r.meaning).refs
  }

  method CollectPastes(pkg: Package, typeName: string, entry: string)
    returns (pastes: seq<Site>, refs: map<string, ImportRef>, violations: seq<Violation>)
    ensures Reported(pkg, Site(entry, typeName), pastes, refs, violations)
    ensures ReportedInTurn(pkg, Site(entry, typeName), pastes, refs, violations)
    ensures match OriginOf(pkg, Site(entry, typeName))
      case Declared(file) => pastes != [] && pastes[0] == Site(file, typeName)
      case _ => violations != []
  {
    var q := new PasteQueue(pkg, typeName, entry);
    q.Drain();
    InvariantAtEnd(pkg, q.root, q.tables, q.taken, q.Current());
    FinishedReport(pkg, q.root, q.tables, Met(q.taken), q.pastes, q.violations);
    assert q.taken + [] == q.taken;
    return q.pastes, q.tables.refs, q.violations;
  }

  lemma ProcessedAll(p: Package, root: Site, t: Tables, done: set<Site>, pastes: seq<Site>, use: Site)
    requires LoopInvariant(p, root, t, done, [], pastes, []) && Used(p, root, use)
    ensures use in done && Recorded(p, t, use)
  {
    var walk := WalkTo(p, root, use);
    forall a, b | a in done && IsEdge(UseGraph(p), a, b) ensures b in done {
      assert Recorded(p, t, a);
      NextProcessed(p, t, done, a, b);
    }
    assert root in done;
    ClosedKeepsWalk(UseGraph(p), done, walk);
  }

  lemma NextProcessed(p: Package, t: Tables, done: set<Site>, a: Site, b: Site)
    requires PastedFollowed(p, t, done, []) && Recorded(p, t, a) && IsEdge(UseGraph(p), a, b)
    ensures b in done
  {
    assert b in UsesOf(p, t.pasted[a.name]);
  }

  lemma NoViolationIsUnambiguous(p: Package, root: Site, t: Tables, done: set<Site>, pastes: seq<Site>)
    requires LoopInvariant(p, root, t, done, [], pastes, [])
    ensures Unambiguous(p, root)
  {
    ReachesSelf(UseGraph(p), root);
    forall use | Used(p, root, use) ensures Recorded(p, t, use) {
      ProcessedAll(p, root, t, done, pastes, use);
    }
    forall a, b | Used(p, root, a) && Used(p, root, b) && a.name == b.name
      ensures OriginOf(p, a) == OriginOf(p, b)
    {
      assert Recorded(p, t, a) && Recorded(p, t, b);
    }
  }

  lemma PastesAreClosure(p: Package, root: Site, t: Tables, done: set<Site>, pastes: seq<Site>, d: Site)
    requires LoopInvariant(p, root, t, done, [], pastes, [])
    ensures d in pastes <==> InClosure(p, root, d)
  {
    if d in pastes {
      assert DeclaredBy(p, done, t.pasted[d.name]);
      var use :| use in done && use.name == d.name && OriginOf(p, use) == Declared(t.pasted[d.name].file);
      assert Used(p, root, use) && ResolvesTo(p, use, Declared(d.file));
    }
    if InClosure(p, root, d) {
      var use :| Used(p, root, use) && ResolvesTo(p, use, Declared(d.file)) && use.name == d.name;
      ProcessedAll(p, root, t, done, pastes, use);
    }
  }

  lemma RefsAreImports(p: Package, root: Site, t: Tables, done: set<Site>, pastes: seq<Site>, n: string, ref: ImportRef)
    requires LoopInvariant(p, root, t, done, [], pastes, [])
    ensures n in t.refs && t.refs[n] == ref <==> ImportedAs(p, root, n, ref)
  {
    if n in t.refs && t.refs[n] == ref {
      assert ImportedBy(p, done, n, t.refs[n]);
      var use :| use in done && use.name == n && OriginOf(p, use) == Imported(ref);
      assert Used(p, root, use) && ResolvesTo(p, use, Imported(ref));
    }
    if ImportedAs(p, root, n, ref) {
      var use :| Used(p, root, use) && ResolvesTo(p, use, Imported(ref)) && use.name == n;
      ProcessedAll(p, root, t, done, pastes, use);
    }
  }

  lemma FinishedReport(p: Package, root: Site, t: Tables, done: set<Site>, pastes: seq<Site>,
                       violations: seq<Violation>)
    requires LoopInvariant(p, root, t, done, [], pastes, violations)
    ensures Reported(p, root, pastes, t.refs, violations)
  {
    if violations == [] {
      NoViolationIsUnambiguous(p, root, t, done, pastes);
      forall d ensures d in pastes <==> InClosure(p, root, d) {
        PastesAreClosure(p, root, t, done, pastes, d);
      }
      forall n, ref ensures n in t.refs && t.refs[n] == ref <==> ImportedAs(p, root, n, ref) {
        RefsAreImports(p, root, t, done, pastes, n, ref);
      }
    }
  }

  lemma {:induction false} SameTurns(p: Package, root: Site, a: seq<Site>, b: seq<Site>, k: nat)
    requires InTurn(p, root, a) && InTurn(p, root, b) && k <= |a| && k <= |b|
    ensures a[..k] == b[..k]
  {
    if k > 0 {
      SameTurns(p, root, a, b, k - 1);
      SameNext(p, root, a, b, k - 1);
      OneLonger(a, k - 1);
      OneLonger(b, k - 1);
    }
  }

  lemma SameNext(p: Package, root: Site, a: seq<Site>, b: seq<Site>, k: nat)
    requires InTurn(p, root, a) && InTurn(p, root, b) && k < |a| && k < |b| && a[..k] == b[..k]
    ensures a[k] == b[k]
  {
    assert IsNext(p, root, a, k) && IsNext(p, root, b, k);
  }

  lemma OneLonger(s: seq<Site>, k: nat)
    requires k < |s|
    ensures s[..k + 1] == s[..k] + [s[k]]
  {
  }

  lemma NoLonger(p: Package, root: Site, a: seq<Site>, b: seq<Site>)
    requires InTurn(p, root, a) && InTurn(p, root, b) && a == AllUses(p, root, Read(p, root.name, a).decls)
    ensures |b| <= |a|
  {
    if |a| < |b| { NextIsLeft(p, root, a, b); }
  }

  lemma NextIsLeft(p: Package, root: Site, a: seq<Site>, b: seq<Site>)
    requires InTurn(p, root, a) && InTurn(p, root, b) && |a| < |b|
    ensures |a| < |AllUses(p, root, Read(p, root.name, a).decls)|
  {
    SameTurns(p, root, a, b, |a|);
    assert IsNext(p, root, b, |a|) && b[..|a|] == a;
  }

  // This fixes the report: pastes, references and violations, and the order of both lists.
  lemma ReportIsFixed(p: Package, root: Site, pastes: seq<Site>, refs: map<string, ImportRef>,
                      violations: seq<Violation>, pastes': seq<Site>, refs': map<string, ImportRef>,
                      violations': seq<Violation>)
    requires ReportedInTurn(p, root, pastes, refs, violations) && ReportedInTurn(p, root, pastes', refs', violations')
    ensures pastes == pastes' && refs == refs' && violations == violations'
  {
    var a, b := AllUses(p, root, pastes), AllUses(p, root, pastes');
    NoLonger(p, root, a, b);
    NoLonger(p, root, b, a);
    SameTurns(p, root, a, b, |a|);
    assert a[..|a|] == a && b[..|b|] == b;
  }

  function NamesOf(uses: seq<Site>): seq<string> {
    seq(|uses|, i requires 0 <= i < |uses| => uses[i].name)
  }

  // The uses of a declaration keep the order in which it mentions the names.
  lemma UsesKeepOrder(p: Package, decl: Site)
    ensures decl in p.mentions ==>
              IsSelection(p.mentions[decl], (n: string) => !IsGlobal(n), NamesOf(UsesOf(p, decl)))
    ensures forall use :: use in UsesOf(p, decl) ==> use.file == decl.file
  {
    var names := MentionsOf(p, decl);
    UsesAreSelected(decl.file, names);
    SelectIsSelection(names, (n: string) => !IsGlobal(n));
  }

  lemma {:induction false} UsesAreSelected(file: string, names: seq<string>)
    ensures NamesOf(UsesIn(file, names)) == Select(names, (n: string) => !IsGlobal(n))
  {
    if names != [] {
      var head, tail := if IsGlobal(names[0]) then [] else [Site(file, names[0])], UsesIn(file, names[1..]);
      UsesAreSelected(file, names[1..]);
      NamesConcat(head, tail);
      assert NamesOf(head) == if IsGlobal(names[0]) then [] else [names[0]];
    }
  }

  lemma NamesConcat(a: seq<Site>, b: seq<Site>)
    ensures NamesOf(a + b) == NamesOf(a) + NamesOf(b)
  {
  }

  // ---- What the pastes are ----

  // Every non-global name a pasted declaration mentions is either pasted or imported, not both.
  lemma MentionsAreCovered(p: Package, root: Site, pastes: seq<Site>, refs: map<string, ImportRef>, d: Site,
                           name: string)
    requires Reported(p, root, pastes, refs, []) && d in pastes
    requires name in MentionsOf(p, d) && !IsGlobal(name)
    ensures (exists e :: e in pastes && e.name == name) <==> name !in refs
  {
    var next := Site(d.file, name);
    PastedUseIsUsed(p, root, pastes, refs, d, next);
    match OriginOf(p, next)
    case Declared(file) => assert InClosure(p, root, Site(file, name));
    case Imported(ref) => assert ImportedAs(p, root, name, ref);
  }

  lemma PastedUseIsUsed(p: Package, root: Site, pastes: seq<Site>, refs: map<string, ImportRef>, d: Site, next: Site)
    requires Reported(p, root, pastes, refs, []) && d in pastes && next in UsesOf(p, d)
    ensures Used(p, root, next) && !OriginOf(p, next).Unresolved?
  {
    var use := UseOfPaste(p, root, pastes, refs, d);
    UseLeadsOn(p, root, use, d.file, next);
  }

  // Contains the config type, and with a declaration all package-local declarations it uses.
  ghost predicate ClosedUnderUses(p: Package, root: Site, decls: set<Site>) {
    && LeadsInto(p, decls, root)
    && forall d, use :: d in decls && use in UsesOf(p, d) ==> LeadsInto(p, decls, use)
  }

  ghost predicate LeadsInto(p: Package, decls: set<Site>, use: Site) {
    match OriginOf(p, use)
    case Declared(file) => Site(file, use.name) in decls
    case _ => true
  }

  // The pastes are such a set,
  lemma PastesAreClosed(p: Package, root: Site, pastes: seq<Site>, refs: map<string, ImportRef>)
    requires Reported(p, root, pastes, refs, [])
    ensures ClosedUnderUses(p, root, set d | d in pastes)
  {
    ReachesSelf(UseGraph(p), root);
    UsedIsPasted(p, root, pastes, refs, root);
    forall d, use | d in pastes && use in UsesOf(p, d) ensures LeadsInto(p, (set d | d in pastes), use) {
      PastedUseIsUsed(p, root, pastes, refs, d, use);
      UsedIsPasted(p, root, pastes, refs, use);
    }
  }

  lemma UsedIsPasted(p: Package, root: Site, pastes: seq<Site>, refs: map<string, ImportRef>, use: Site)
    requires Reported(p, root, pastes, refs, []) && Used(p, root, use)
    ensures LeadsInto(p, (set d | d in pastes), use)
  {
    match OriginOf(p, use)
    case Declared(file) => assert InClosure(p, root, Site(file, use.name));
    case _ =>
  }

  // and the least one.
  lemma PastesAreLeast(p: Package, root: Site, pastes: seq<Site>, refs: map<string, ImportRef>, decls: set<Site>,
                       d: Site)
    requires Reported(p, root, pastes, refs, []) && ClosedUnderUses(p, root, decls) && d in pastes
    ensures d in decls
  {
    var use := UseOfPaste(p, root, pastes, refs, d);
    UsedStaysIn(p, root, decls, use);
  }

  lemma UsedStaysIn(p: Package, root: Site, decls: set<Site>, use: Site)
    requires ClosedUnderUses(p, root, decls) && Used(p, root, use)
    ensures LeadsInto(p, decls, use)
  {
    var walk := WalkTo(p, root, use);
    WalkStaysIn(p, root, decls, walk, |walk| - 1);
  }

  lemma WalkTo(p: Package, root: Site, use: Site) returns (walk: seq<Site>)
    requires Used(p, root, use)
    ensures IsWalk(UseGraph(p), walk) && walk[0] == root && walk[|walk| - 1] == use
  {
    walk :| IsWalk(UseGraph(p), walk) && walk[0] == root && walk[|walk| - 1] == use;
  }

  lemma UseOfPaste(p: Package, root: Site, pastes: seq<Site>, refs: map<string, ImportRef>, d: Site) returns (use: Site)
    requires Reported(p, root, pastes, refs, []) && d in pastes
    ensures Used(p, root, use) && OriginOf(p, use) == Declared(d.file) && use.name == d.name
  {
    assert InClosure(p, root, d);
    use :| Used(p, root, use) && ResolvesTo(p, use, Declared(d.file)) && use.name == d.name;
  }

  lemma {:induction false} WalkStaysIn(p: Package, root: Site, decls: set<Site>, walk: seq<Site>, k: nat)
    requires ClosedUnderUses(p, root, decls) && IsWalk(UseGraph(p), walk) && walk[0] == root && k < |walk|
    ensures LeadsInto(p, decls, walk[k])
  {
    if k > 0 {
      WalkStaysIn(p, root, decls, walk, k - 1);
      assert EdgeAt(UseGraph(p), walk, k - 1);
    }
  }
}
