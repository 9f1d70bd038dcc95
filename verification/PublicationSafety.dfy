// Crash safety of the publication over any sequence of runs.
module PublicationSafety {
  import opened Publication

  // States reachable by any number of runs, each crashed, failed or completed.
  ghost predicate IsHistory(m: Manifest, states: seq<Registry>) {
    |states| > 0 && forall k: nat :: k + 1 < |states| ==> RunAt(m, states, k)
  }

  ghost predicate RunAt(m: Manifest, states: seq<Registry>, k: nat) {
    k + 1 < |states| && Reached(m, states[k], states[k + 1])
  }

  lemma ReachedFromPartial(m: Manifest, r: Registry, s: Registry, t: Registry, k: nat)
    requires Loaded(m) && LeftAt(m, r, s, k) && Reached(m, s, t)
    ensures Reached(m, r, t)
  {
    if t == Final(m, s) && NoConflict(m, s, |m.packages|) {
      RestartCatchesUp(m, r, k, |m.packages|);
      ConflictsStay(m, r, k, |m.packages|);
    } else {
      var j: nat :| LeftAt(m, s, t, j);
      RestartCatchesUp(m, r, k, j);
      ConflictsStay(m, r, k, j);
      assert LeftAt(m, r, t, if j <= k then k else j);
    }
  }

  lemma ReachedFromFinal(m: Manifest, r: Registry, t: Registry)
    requires Loaded(m) && NoConflict(m, r, |m.packages|) && Reached(m, Final(m, r), t)
    ensures t == Final(m, r)
  {
    FinalIsStable(m, r);
    if j: nat :| LeftAt(m, Final(m, r), t, j) {
      RestartFromFinal(m, r, j);
    }
  }

  // Whatever a sequence of runs leaves behind, one run could have left behind.
  lemma ReachedTransitive(m: Manifest, r: Registry, s: Registry, t: Registry)
    requires Loaded(m) && Reached(m, r, s) && Reached(m, s, t)
    ensures Reached(m, r, t)
  {
    if k: nat :| LeftAt(m, r, s, k) {
      ReachedFromPartial(m, r, s, t, k);
    } else {
      ReachedFromFinal(m, r, t);
    }
  }

  lemma {:induction false} HistoryIsOneRun(m: Manifest, states: seq<Registry>, k: nat)
    requires Loaded(m) && IsHistory(m, states) && k < |states|
    ensures Reached(m, states[0], states[k])
  {
    if k == 0 {
      assert LeftAt(m, states[0], states[0], 0);
    } else {
      HistoryIsOneRun(m, states, k - 1);
      assert RunAt(m, states, k - 1);
      ReachedTransitive(m, states[0], states[k - 1], states[k]);
    }
  }

  // ---- Integrities are never changed ----

  lemma ReachedKeepsStored(m: Manifest, r: Registry, s: Registry, slot: Slot)
    requires Loaded(m) && Reached(m, r, s) && slot in r.stored
    ensures slot in s.stored && s.stored[slot] == r.stored[slot]
  {
    if k: nat :| LeftAt(m, r, s, k) {
      AfterStored(m, r, k, slot);
    } else {
      AfterStored(m, r, |m.packages|, slot);
    }
  }

  // ---- The entry package's `latest` ----

  ghost predicate Present(m: Manifest, r: Registry, i: nat)
    requires i < |m.packages|
  {
    && SlotOf(m, i) in r.stored && r.stored[SlotOf(m, i)] == m.packages[i].integrity
    && Tag(m.packages[i].name, m.distTag) in r.tags && r.tags[Tag(m.packages[i].name, m.distTag)] == m.version
  }

  ghost predicate AllPresent(m: Manifest, r: Registry) {
    forall i :: 0 <= i < |m.packages| ==> Present(m, r, i)
  }

  ghost predicate LatestIsThis(m: Manifest, r: Registry) {
    var tag := Tag("@deepseek-ai/dsh", "latest");
    tag in r.tags && r.tags[tag] == m.version
  }

  // The bundle's own tag is not `latest`, or the entry package is published last.
  ghost predicate LatestComesLast(m: Manifest)
    requires Loaded(m)
  {
    m.distTag != "latest" || forall i :: 0 <= i < |m.packages| - 1 ==> m.packages[i].name != "@deepseek-ai/dsh"
  }

  lemma DonePackageIsPresent(m: Manifest, r: Registry, k: nat, i: nat)
    requires Loaded(m) && i < k <= |m.packages| && NoConflict(m, r, k)
    ensures Present(m, After(m, r, k), i) && (k == |m.packages| ==> Present(m, Final(m, r), i))
  {
    AfterStored(m, r, k, SlotOf(m, i));
    AfterTags(m, r, k, Tag(m.packages[i].name, m.distTag));
    assert AmongFirst(m, m.packages[i].name, k);
  }

  lemma EndIsAllPresent(m: Manifest, r: Registry)
    requires Loaded(m) && NoConflict(m, r, |m.packages|)
    ensures AllPresent(m, After(m, r, |m.packages|)) && AllPresent(m, Final(m, r))
  {
    forall i | 0 <= i < |m.packages|
      ensures Present(m, After(m, r, |m.packages|), i) && Present(m, Final(m, r), i)
    {
      DonePackageIsPresent(m, r, |m.packages|, i);
    }
  }

  lemma LatestOnlyAtEnd(m: Manifest, r: Registry, s: Registry)
    requires Loaded(m) && LatestComesLast(m) && Reached(m, r, s) && !LatestIsThis(m, r) && LatestIsThis(m, s)
    ensures AllPresent(m, s)
  {
    if k: nat :| LeftAt(m, r, s, k) {
      AfterTags(m, r, k, Tag(RELEASE_ENTRY_PACKAGE, LATEST_DIST_TAG));
      var i :| 0 <= i < k && m.packages[i].name == RELEASE_ENTRY_PACKAGE;
    }
    EndIsAllPresent(m, r);
  }

  // If the condition fails, a crash right after the entry package's own step moves `latest`
  // while the last package of the bundle is still missing.
  lemma LatestTooEarly(m: Manifest) returns (r: Registry, s: Registry)
    requires Loaded(m) && !LatestComesLast(m)
    ensures r == Registry(map[], map[])
    ensures Reached(m, r, s) && !LatestIsThis(m, r) && LatestIsThis(m, s) && !AllPresent(m, s)
  {
    r := Registry(map[], map[]);
    var last := |m.packages| - 1;
    var i: nat :| i < last && m.packages[i].name == RELEASE_ENTRY_PACKAGE;
    s := After(m, r, i + 1);
    assert LeftAt(m, r, s, i + 1);
    AfterTags(m, r, i + 1, Tag(RELEASE_ENTRY_PACKAGE, LATEST_DIST_TAG));
    assert AmongFirst(m, RELEASE_ENTRY_PACKAGE, i + 1);
    AfterStored(m, r, i + 1, SlotOf(m, last));
    assert !AmongFirst(m, m.packages[last].name, i + 1);
    assert !Present(m, s, last);
  }

  ghost predicate LatestIsSafe(m: Manifest) {
    forall r, s :: Reached(m, r, s) && !LatestIsThis(m, r) && LatestIsThis(m, s) ==> AllPresent(m, s)
  }

  // `latest` never points to this version ahead of the bundle, exactly under the condition.
  lemma LatestSafeIff(m: Manifest)
    requires Loaded(m)
    ensures LatestIsSafe(m) <==> LatestComesLast(m)
  {
    if LatestComesLast(m) {
      forall r, s | Reached(m, r, s) && !LatestIsThis(m, r) && LatestIsThis(m, s)
        ensures AllPresent(m, s)
      {
        LatestOnlyAtEnd(m, r, s);
      }
    } else {
      var r, s := LatestTooEarly(m);
    }
  }

  // ---- Over whole histories ----

  // After any sequence of runs: no stored integrity has changed, and `latest` has moved to this
  // version only over a complete bundle.
  lemma HistoryIsCrashSafe(m: Manifest, states: seq<Registry>, k: nat)
    requires Loaded(m) && IsHistory(m, states) && k < |states|
    ensures forall slot :: slot in states[0].stored ==>
              slot in states[k].stored && states[k].stored[slot] == states[0].stored[slot]
    ensures LatestComesLast(m) && !LatestIsThis(m, states[0]) && LatestIsThis(m, states[k]) ==> AllPresent(m, states[k])
  {
    HistoryIsOneRun(m, states, k);
    forall slot | slot in states[0].stored
      ensures slot in states[k].stored && states[k].stored[slot] == states[0].stored[slot]
    {
      ReachedKeepsStored(m, states[0], states[k], slot);
    }
    if LatestComesLast(m) && !LatestIsThis(m, states[0]) && LatestIsThis(m, states[k]) {
      LatestOnlyAtEnd(m, states[0], states[k]);
    }
  }

  // A completed run at any point of a history ends in the state one uninterrupted run from the
  // very beginning ends in.
  lemma CompletedRunsAgree(m: Manifest, states: seq<Registry>, k: nat)
    requires Loaded(m) && IsHistory(m, states) && k < |states| && NoConflict(m, states[k], |m.packages|)
    ensures Final(m, states[k]) == Final(m, states[0])
  {
    HistoryIsOneRun(m, states, k);
    if j: nat :| LeftAt(m, states[0], states[k], j) {
      RestartCatchesUp(m, states[0], j, |m.packages|);
    } else {
      FinalIsStable(m, states[0]);
    }
  }
}
