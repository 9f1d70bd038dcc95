// The resumable publication protocol against a registry with immutable versions and movable
// tags: which registry states a publication passes through, and why a crash loses nothing.
module Publication {
  // A released version of a package, and a dist-tag of a package.
  datatype Slot = Slot(name: string, version: string)
  datatype Tag = Tag(name: string, tag: string)

  // Integrity of every stored version and the version every dist-tag points to.
  datatype Registry = Registry(stored: map<Slot, string>, tags: map<Tag, string>)

  datatype PackedPackage = PackedPackage(name: string, integrity: string)

  datatype Manifest = Manifest(version: string, distTag: string, packages: seq<PackedPackage>)

  const RELEASE_ENTRY_PACKAGE := "@deepseek-ai/dsh"
  const LATEST_DIST_TAG := "latest"

  // What loading a bundle checks: packages, no duplicate name, recorded sha512 integrities.
  ghost predicate Loaded(m: Manifest) {
    && m.packages != []
    && (forall i, j :: 0 <= i < j < |m.packages| ==> m.packages[i].name != m.packages[j].name)
    && (forall i :: 0 <= i < |m.packages| ==> IsIntegrity(m.packages[i].integrity))
  }

  predicate IsIntegrity(value: string) {
    "sha512-" <= value
  }

  function SlotOf(m: Manifest, i: nat): Slot
    requires i < |m.packages|
  {
    Slot(m.packages[i].name, m.version)
  }

  function SetTag(m: Manifest, r: Registry, name: string, tag: string): Registry {
    r.(tags := r.tags[Tag(name, tag) := m.version])
  }

  // npm publish of a missing version stores it and sets the requested tag.
  function Store(m: Manifest, r: Registry, p: PackedPackage): Registry {
    SetTag(m, r.(stored := r.stored[Slot(p.name, m.version) := p.integrity]), p.name, m.distTag)
  }

  function PackageDone(m: Manifest, r: Registry, p: PackedPackage): Registry {
    if Slot(p.name, m.version) in r.stored then SetTag(m, r, p.name, m.distTag) else Store(m, r, p)
  }

  // The registry once the first k packages have been dealt with.
  function After(m: Manifest, r: Registry, k: nat): Registry
    requires k <= |m.packages|
  {
    if k == 0 then r else PackageDone(m, After(m, r, k - 1), m.packages[k - 1])
  }

  function Final(m: Manifest, r: Registry): Registry {
    SetTag(m, After(m, r, |m.packages|), RELEASE_ENTRY_PACKAGE, LATEST_DIST_TAG)
  }

  // None of the first k packages is already stored with another integrity.
  ghost predicate NoConflict(m: Manifest, r: Registry, k: nat)
    requires k <= |m.packages|
  {
    forall i :: 0 <= i < k && SlotOf(m, i) in r.stored ==> r.stored[SlotOf(m, i)] == m.packages[i].integrity
  }

  // The states one run of the protocol, crashed, failed or completed, can leave behind.
  ghost predicate Reached(m: Manifest, r: Registry, s: Registry) {
    || (s == Final(m, r) && NoConflict(m, r, |m.packages|))
    || exists k: nat :: LeftAt(m, r, s, k)
  }

  ghost predicate LeftAt(m: Manifest, r: Registry, s: Registry, k: nat) {
    k <= |m.packages| && NoConflict(m, r, k) && s == After(m, r, k)
  }

  // ---- What the k-th state holds ----

  ghost predicate AmongFirst(m: Manifest, name: string, k: nat)
    requires k <= |m.packages|
  {
    exists i :: 0 <= i < k && m.packages[i].name == name
  }

  lemma {:induction false} AfterStored(m: Manifest, r: Registry, k: nat, slot: Slot)
    requires Loaded(m) && k <= |m.packages|
    ensures slot in r.stored ==> slot in After(m, r, k).stored && After(m, r, k).stored[slot] == r.stored[slot]
    ensures slot in After(m, r, k).stored <==>
              slot in r.stored || (slot.version == m.version && AmongFirst(m, slot.name, k))
    ensures forall i :: 0 <= i < k && slot == SlotOf(m, i) && slot !in r.stored ==>
              slot in After(m, r, k).stored && After(m, r, k).stored[slot] == m.packages[i].integrity
  {
    if k > 0 {
      AfterStored(m, r, k - 1, slot);
      AmongNext(m, slot.name, k);
    }
  }

  lemma {:induction false} AfterTags(m: Manifest, r: Registry, k: nat, tag: Tag)
    requires k <= |m.packages|
    ensures tag.tag == m.distTag && AmongFirst(m, tag.name, k) ==>
              tag in After(m, r, k).tags && After(m, r, k).tags[tag] == m.version
    ensures !(tag.tag == m.distTag && AmongFirst(m, tag.name, k)) ==>
              (tag in After(m, r, k).tags <==> tag in r.tags)
                  && (tag in r.tags ==> After(m, r, k).tags[tag] == r.tags[tag])
  {
    if k > 0 {
      AfterTags(m, r, k - 1, tag);
      AmongNext(m, tag.name, k);
    }
  }

  lemma AmongNext(m: Manifest, name: string, k: nat)
    requires 0 < k <= |m.packages|
    ensures AmongFirst(m, name, k) <==> AmongFirst(m, name, k - 1) || m.packages[k - 1].name == name
  {
    assert m.packages[k - 1].name == name ==> AmongFirst(m, name, k);
    if AmongFirst(m, name, k - 1) {
      var i :| 0 <= i < k - 1 && m.packages[i].name == name;
      assert AmongFirst(m, name, k);
    }
  }

  // ---- Restarting ----

  // A package dealt with once needs nothing more.
  ghost predicate Dealt(m: Manifest, r: Registry, p: PackedPackage) {
    && Slot(p.name, m.version) in r.stored
    && Tag(p.name, m.distTag) in r.tags && r.tags[Tag(p.name, m.distTag)] == m.version
  }

  lemma DealtStays(m: Manifest, r: Registry, p: PackedPackage)
    requires Dealt(m, r, p)
    ensures PackageDone(m, r, p) == r
  {
    assert r.tags[Tag(p.name, m.distTag) := m.version] == r.tags;
  }

  lemma DealtAfter(m: Manifest, r: Registry, k: nat, i: nat)
    requires Loaded(m) && i < k <= |m.packages|
    ensures Dealt(m, After(m, r, k), m.packages[i])
  {
    AfterStored(m, r, k, SlotOf(m, i));
    AfterTags(m, r, k, Tag(m.packages[i].name, m.distTag));
    assert AmongFirst(m, m.packages[i].name, k);
  }

  lemma DoneAgain(m: Manifest, r: Registry, k: nat, i: nat)
    requires Loaded(m) && i < k <= |m.packages|
    ensures PackageDone(m, After(m, r, k), m.packages[i]) == After(m, r, k)
  {
    DealtAfter(m, r, k, i);
    DealtStays(m, After(m, r, k), m.packages[i]);
  }

  // A restart from the k-th state changes nothing until it gets past package k.
  lemma {:induction false} RestartCatchesUp(m: Manifest, r: Registry, k: nat, j: nat)
    requires Loaded(m) && k <= |m.packages| && j <= |m.packages|
    ensures After(m, After(m, r, k), j) == After(m, r, if j <= k then k else j)
  {
    if j > k {
      RestartCatchesUp(m, r, k, j - 1);
    } else {
      RestartRepeats(m, r, k, j);
    }
  }

  lemma {:induction false} RestartRepeats(m: Manifest, r: Registry, k: nat, j: nat)
    requires Loaded(m) && j <= k <= |m.packages|
    ensures After(m, After(m, r, k), j) == After(m, r, k)
  {
    if j > 0 {
      RestartRepeats(m, r, k, j - 1);
      DoneAgain(m, r, k, j - 1);
    }
  }

  lemma {:induction false} RestartFromFinal(m: Manifest, r: Registry, j: nat)
    requires Loaded(m) && j <= |m.packages|
    ensures After(m, Final(m, r), j) == Final(m, r)
  {
    if j > 0 {
      RestartFromFinal(m, r, j - 1);
      DealtAfter(m, r, |m.packages|, j - 1);
      DealtStays(m, Final(m, r), m.packages[j - 1]);
    }
  }

  lemma FinalIsStable(m: Manifest, r: Registry)
    requires Loaded(m)
    ensures Final(m, Final(m, r)) == Final(m, r)
  {
    RestartFromFinal(m, r, |m.packages|);
    var f := Final(m, r);
    assert f.tags[Tag(RELEASE_ENTRY_PACKAGE, LATEST_DIST_TAG) := m.version] == f.tags;
  }

  // Conflicts neither appear nor disappear on the way.
  lemma ConflictsStay(m: Manifest, r: Registry, k: nat, j: nat)
    requires Loaded(m) && k <= |m.packages| && j <= |m.packages| && NoConflict(m, r, k)
    ensures NoConflict(m, After(m, r, k), j) <==> NoConflict(m, r, j)
  {
    forall i | 0 <= i < |m.packages|
      ensures SlotOf(m, i) in r.stored ==>
                SlotOf(m, i) in After(m, r, k).stored && After(m, r, k).stored[SlotOf(m, i)] == r.stored[SlotOf(m, i)]
      ensures SlotOf(m, i) in After(m, r, k).stored && SlotOf(m, i) !in r.stored ==>
                After(m, r, k).stored[SlotOf(m, i)] == m.packages[i].integrity
    {
      AfterStored(m, r, k, SlotOf(m, i));
      if SlotOf(m, i) in After(m, r, k).stored && SlotOf(m, i) !in r.stored {
        var l :| 0 <= l < k && m.packages[l].name == m.packages[i].name;
      }
    }
  }
}
