// RegistryPublication: the publishing loop over npm commands, any of which the process may not
// live to issue.
module RegistryPublication {
  import opened Publication
  import opened PublicationSafety

  datatype Failure =
    | NoIntegrity(name: string)          // the registry stores something that is no sha512 integrity
    | DifferentIntegrity(name: string)
    | UnknownPackage(name: string)       // dist-tags of a package the registry does not have
    | Unverified(name: string)

  datatype Outcome = Completed | Crashed | Failed(failure: Failure)

  ghost predicate Known(r: Registry, name: string) {
    exists slot :: slot in r.stored && slot.name == name
  }

  // A run succeeds from r if no package is stored with another integrity and the entry package
  // is known to the registry or part of the bundle.
  ghost predicate CanComplete(m: Manifest, r: Registry) {
    && NoConflict(m, r, |m.packages|)
    && (Known(r, "@deepseek-ai/dsh") || exists i :: 0 <= i < |m.packages| && m.packages[i].name == "@deepseek-ai/dsh")
  }

  lemma EntryKnownAtEnd(m: Manifest, r: Registry)
    requires Loaded(m)
    ensures Known(After(m, r, |m.packages|), RELEASE_ENTRY_PACKAGE) <==>
              Known(r, RELEASE_ENTRY_PACKAGE) || AmongFirst(m, RELEASE_ENTRY_PACKAGE, |m.packages|)
  {
    var n := |m.packages|;
    if AmongFirst(m, RELEASE_ENTRY_PACKAGE, n) {
      AfterStored(m, r, n, Slot(RELEASE_ENTRY_PACKAGE, m.version));
    }
    if slot :| slot in r.stored && slot.name == RELEASE_ENTRY_PACKAGE {
      AfterStored(m, r, n, slot);
    }
    if slot :| slot in After(m, r, n).stored && slot.name == RELEASE_ENTRY_PACKAGE {
      AfterStored(m, r, n, slot);
    }
  }

  // Package i is already stored with another integrity.
  ghost predicate Conflicting(m: Manifest, r: Registry, i: nat)
    requires i < |m.packages|
  {
    SlotOf(m, i) in r.stored && r.stored[SlotOf(m, i)] != m.packages[i].integrity
  }

  lemma OneMorePackage(m: Manifest, r: Registry, s: Registry, i: nat)
    requires Loaded(m) && i < |m.packages| && LeftAt(m, r, s, i)
    ensures if Conflicting(m, s, i) then !NoConflict(m, r, |m.packages|)
            else LeftAt(m, r, PackageDone(m, s, m.packages[i]), i + 1)
  {
    ConflictsStay(m, r, i, i);
    ConflictsStay(m, r, i, i + 1);
    if Conflicting(m, s, i) {
      assert !NoConflict(m, s, i + 1);
    } else {
      assert NoConflict(m, s, i + 1);
    }
  }

  // Why a package of the bundle cannot be dealt with.
  ghost predicate Explains(m: Manifest, r: Registry, i: nat, failure: Failure)
    requires i < |m.packages|
  {
    var name := m.packages[i].name;
    && Slot(name, m.version) in r.stored
    && var stored := r.stored[Slot(name, m.version)];
       && stored != m.packages[i].integrity
       && failure == if "sha512-" <= stored then DifferentIntegrity(name) else NoIntegrity(name)
  }

  // The npm commands: `view`, `publish`, and `dist-tag` with `ls` and `add`.
  datatype Command =
    | View(name: string)
    | Upload(name: string)
    | ListTags(name: string)
    | AddTag(name: string, tag: string)

  // The commands that read all packages back, and the entry package's tags at the end.
  ghost function ReadBack(m: Manifest, k: nat): seq<Command>
    requires k <= |m.packages|
  {
    if k == 0 then [] else ReadBack(m, k - 1) + [View(m.packages[k - 1].name), ListTags(m.packages[k - 1].name)]
  }

  ghost function ReadAllBack(m: Manifest): seq<Command> {
    ReadBack(m, |m.packages|) + [ListTags("@deepseek-ai/dsh")]
  }

  ghost predicate EndsWith(log: seq<Command>, tail: seq<Command>) {
    |tail| <= |log| && log[|log| - |tail|..] == tail
  }

  class RegistryPublication {
    const manifest: Manifest
    var remote: Registry
    var log: seq<Command>
    var commands: nat // how many more commands the process lives to issue

    constructor (manifest: Manifest, remote: Registry, commands: nat)
      requires Loaded(manifest)
      ensures this.manifest == manifest && this.remote == remote && this.commands == commands && log == []
    {
      this.manifest, this.remote, this.log, this.commands := manifest, remote, [], commands;
    }

    // Every command is one of those the process lives to issue.
    ghost function Spent(): nat
      reads this
    {
      commands + |log|
    }

    method Issue(c: Command)
      requires commands > 0
      modifies this`log, this`commands
      ensures log == old(log) + [c] && commands == old(commands) - 1
    {
      log, commands := log + [c], commands - 1;
    }

    // The tag points to this version afterwards; a tag that already does is not set again.
    method EnsureDistTag(name: string, tag: string) returns (o: Outcome)
      modifies this
      ensures o.Completed? ==> remote == SetTag(manifest, old(remote), name, tag) && Known(old(remote), name)
      ensures o.Completed? ==>
                log == old(log) + [ListTags(name)] + if remote == old(remote) then [] else [AddTag(name, tag)]
      ensures !o.Completed? ==> remote == old(remote)
      ensures o.Failed? ==> !Known(remote, name) && o.failure == UnknownPackage(name)
      ensures o.Crashed? ==> old(commands) < 2
      ensures old(commands) <= commands + 2 && Spent() == old(Spent())
    {
      if commands == 0 { return Crashed; }
      Issue(ListTags(name));
      if !exists slot | slot in remote.stored :: slot.name == name { return Failed(UnknownPackage(name)); }
      if Tag(name, tag) in remote.tags && remote.tags[Tag(name, tag)] == manifest.version {
        assert remote.tags[Tag(name, tag) := manifest.version] == remote.tags;
        return Completed;
      }
      if commands == 0 { return Crashed; }
      Issue(AddTag(name, tag));
      assert remote.tags[Tag(name, tag) := manifest.version] != remote.tags;
      remote := SetTag(manifest, remote, name, tag);
      return Completed;
    }

    // One round of the publishing loop.
    method PublishPackage(i: nat) returns (o: Outcome)
      requires Loaded(manifest) && i < |manifest.packages|
      modifies this
      ensures o.Completed? ==> remote == PackageDone(manifest, old(remote), manifest.packages[i])
      ensures o.Completed? ==> !Conflicting(manifest, old(remote), i)
      ensures o.Failed? ==> remote == old(remote) && Explains(manifest, remote, i, o.failure)
      ensures o.Crashed? ==> old(commands) < 4
      ensures o.Crashed? && remote != old(remote) ==> remote == PackageDone(manifest, old(remote), manifest.packages[i])
      ensures o.Crashed? && remote != old(remote) ==> !Conflicting(manifest, old(remote), i)
      ensures old(commands) <= commands + 4 && Spent() == old(Spent())
    {
      var p := manifest.packages[i];
      var slot := SlotOf(manifest, i);
      if commands == 0 { return Crashed; }
      Issue(View(p.name));
      if slot !in remote.stored {
        if commands == 0 { return Crashed; }
        Issue(Upload(p.name));
        remote := Store(manifest, remote, p);
        assert remote.tags[Tag(p.name, manifest.distTag) := manifest.version] == remote.tags;
      } else {
        if !IsIntegrity(remote.stored[slot]) { return Failed(NoIntegrity(p.name)); }
        if remote.stored[slot] != p.integrity { return Failed(DifferentIntegrity(p.name)); }
      }
      assert slot in remote.stored;
      o := EnsureDistTag(p.name, manifest.distTag);
    }

    // Reads everything back; it has nothing to complain about once the registry is final.
    method VerifyRemote() returns (o: Outcome)
      requires Loaded(manifest)
      modifies this`commands, this`log
      ensures o.Completed? ==> log == old(log) + ReadAllBack(manifest)
      ensures o.Completed? ==>
                AllPresent(manifest, remote) && LatestIsThis(manifest, remote) && Known(remote, "@deepseek-ai/dsh")
      ensures AllPresent(manifest, remote) && LatestIsThis(manifest, remote) && Known(remote, "@deepseek-ai/dsh") ==>
                !o.Failed?
      ensures o.Crashed? ==> old(commands) < 2 * |manifest.packages| + 1
      ensures Spent() == old(Spent())
    {
      for i := 0 to |manifest.packages|
        invariant forall k :: 0 <= k < i ==> Present(manifest, remote, k)
        invariant old(commands) <= commands + 2 * i && Spent() == old(Spent())
        invariant log == old(log) + ReadBack(manifest, i)
      {
        var p := manifest.packages[i];
        var slot, tag := SlotOf(manifest, i), Tag(p.name, manifest.distTag);
        if commands == 0 { return Crashed; }
        Issue(View(p.name));
        if !(slot in remote.stored && remote.stored[slot] == p.integrity) {
          assert !Present(manifest, remote, i);
          return Failed(Unverified(p.name));
        }
        if commands == 0 { return Crashed; }
        Issue(ListTags(p.name));
        if !(tag in remote.tags && remote.tags[tag] == manifest.version) {
          assert !Present(manifest, remote, i);
          return Failed(Unverified(p.name));
        }
      }
      if commands == 0 { return Crashed; }
      Issue(ListTags(RELEASE_ENTRY_PACKAGE));
      var latest := Tag(RELEASE_ENTRY_PACKAGE, LATEST_DIST_TAG);
      if !exists slot | slot in remote.stored :: slot.name == RELEASE_ENTRY_PACKAGE {
        return Failed(UnknownPackage(RELEASE_ENTRY_PACKAGE));
      }
      if !(latest in remote.tags && remote.tags[latest] == manifest.version) {
        return Failed(Unverified(RELEASE_ENTRY_PACKAGE));
      }
      return Completed;
    }

    // One run. Wherever it stops, the registry is in one of the states of the protocol; a run
    // that may issue enough commands completes exactly if the registry allows it, and then its
    // last commands have read everything back.
    method Publish() returns (o: Outcome)
      requires Loaded(manifest)
      modifies this
      ensures Reached(manifest, old(remote), remote)
      ensures o.Completed? ==> CanComplete(manifest, old(remote)) && remote == Final(manifest, old(remote))
      ensures o.Completed? ==> EndsWith(log, ReadAllBack(manifest))
      ensures o.Failed? ==> !CanComplete(manifest, old(remote))
      ensures o.Crashed? ==> old(commands) < 6 * |manifest.packages| + 3
      ensures Spent() == old(Spent())
    {
      for i := 0 to |manifest.packages|
        invariant LeftAt(manifest, old(remote), remote, i)
        invariant old(commands) <= commands + 4 * i && Spent() == old(Spent())
      {
        ghost var before := remote;
        o := PublishPackage(i);
        OneMorePackage(manifest, old(remote), before, i);
        if !o.Completed? { return; }
      }
      EntryKnownAtEnd(manifest, old(remote));
      o := EnsureDistTag(RELEASE_ENTRY_PACKAGE, LATEST_DIST_TAG);
      if !o.Completed? { return; }
      EndIsAllPresent(manifest, old(remote));
      o := VerifyRemote();
    }
  }
}
