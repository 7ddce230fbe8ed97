/** Interrupted publications resume. */
module CrashResume {
  import opened RegistrySpec
  import opened Publication

  // Any number of runs that are cut off, followed by one that completes, leave the registry
  // that one uninterrupted run would have left.

  // ----- when a run can complete

  ghost predicate ShipsEntry(b: Bundle) {
    exists p :: p in b.packages && p.name == RELEASE_ENTRY_PACKAGE
  }

  /** `latest` of the entry package has a version to name, or names it already. */
  ghost predicate EntryReady(b: Bundle, r: Registry) {
    || ShipsEntry(b)
    || Key(RELEASE_ENTRY_PACKAGE, b.version) in r.versions
    || (Known(r, RELEASE_ENTRY_PACKAGE) && LatestIs(b, r))
  }

  /** No package is published with other contents, and `latest` has something to name. */
  ghost predicate Publishable(b: Bundle, r: Registry) {
    (forall p :: p in b.packages ==> Compatible(b, r, p)) && EntryReady(b, r)
  }

  function EnoughCommands(b: Bundle): nat {
    5 * |b.packages| + 5
  }

  lemma RoundCompletes(b: Bundle, w: World, pkg: PackedPackage)
    requires Compatible(b, w.registry, pkg) && INTEGRITY_PREFIX <= pkg.integrity && w.budget >= 3
    ensures var Outcome(reply, w') := PublishOne(b, w, pkg);
            reply.Success? && w'.budget >= w.budget - 3
  {
    var key := Key(pkg.name, b.version);
    if key in w.registry.versions {
      assert Known(w.registry, pkg.name);
    } else {
      var r' := AddPackage(b, w.registry, pkg);
      assert key in r'.versions && key.name == pkg.name;
      assert Known(r', pkg.name);
    }
  }

  lemma {:induction false} RoundsComplete(b: Bundle, w: World, k: nat)
    requires ValidBundle(b) && k <= |b.packages| && w.budget >= 3 * k
    requires forall i :: 0 <= i < k ==> Compatible(b, w.registry, b.packages[i])
    ensures var Outcome(reply, w') := PublishRounds(b, w, k);
            reply.Success? && w'.budget >= w.budget - 3 * k
  {
    hide PublishOne;
    if k > 0 {
      RoundsComplete(b, w, k - 1);
      var j := RoundsStop(b, w, k - 1);
      ProgressStaysCompatible(b, w.registry, k - 1, k - 1);
      NextRound(b, w, k - 1);
      RoundCompletes(b, PublishRounds(b, w, k - 1).world, b.packages[k - 1]);
    }
  }

  lemma CheckPasses(b: Bundle, w: World, p: PackedPackage)
    requires INTEGRITY_PREFIX <= p.integrity
    ensures VerifyOne(b, w, p).verdict.Success? <==> w.budget >= 2 && PackageReleased(b, w.registry, p)
    ensures VerifyOne(b, w, p).verdict.Success? ==> VerifyOne(b, w, p).world == World(w.registry, w.budget - 2)
  {
    if PackageReleased(b, w.registry, p) {
      assert Key(p.name, b.version) in w.registry.versions && Known(w.registry, p.name);
    }
  }

  lemma {:induction false} ChecksPass(b: Bundle, w: World, k: nat)
    requires ValidBundle(b) && k <= |b.packages|
    ensures var Outcome(reply, w') := VerifyRounds(b, w, k);
            && (reply.Success? <==>
               w.budget >= 2 * k && forall i | 0 <= i < k :: PackageReleased(b, w.registry, b.packages[i]))
            && (reply.Success? ==> w' == World(w.registry, w.budget - 2 * k))
  {
    hide VerifyOne, PackageReleased;
    if k > 0 {
      ChecksPass(b, w, k - 1);
      var Outcome(earlier, w1) := VerifyRounds(b, w, k - 1);
      if earlier.Success? { CheckPasses(b, w1, b.packages[k - 1]); }
    }
  }

  /** Verification accepts exactly the registries where every package has its recorded
      integrity and the release tag and the entry package's `latest` is in place; it takes
      two commands a package and one. */
  lemma VerifyAcceptsExactly(b: Bundle, w: World)
    requires ValidBundle(b)
    ensures VerifyAll(b, w).verdict.Success? <==>
            && w.budget >= 2 * |b.packages| + 1
            && Released(b, w.registry) && Known(w.registry, RELEASE_ENTRY_PACKAGE) && LatestIs(b, w.registry)
  {
    hide VerifyRounds, PackageReleased;
    ChecksPass(b, w, |b.packages|);
    if VerifyRounds(b, w, |b.packages|).verdict.Success? {
      forall p | p in b.packages ensures PackageReleased(b, w.registry, p) {
        var i :| 0 <= i < |b.packages| && b.packages[i] == p;
      }
    }
  }

  lemma ProgressReleases(b: Bundle, r: Registry, k: nat)
    requires ValidBundle(b) && |b.packages| <= k <= |b.packages| + 1
    requires forall p :: p in b.packages ==> Compatible(b, r, p)
    ensures Released(b, Progress(b, r, k))
  {
    forall i | 0 <= i < |b.packages|
      ensures PackageReleased(b, Progress(b, r, k), b.packages[i])
    {
      ProgressHas(b, r, i, k);
      ProgressStaysCompatible(b, r, k, i);
    }
  }

  lemma ProgressKnowsEntry(b: Bundle, r: Registry)
    requires Publishable(b, r)
    ensures var r' := Progress(b, r, |b.packages|);
            Known(r', RELEASE_ENTRY_PACKAGE)
            && (Key(RELEASE_ENTRY_PACKAGE, b.version) in r'.versions || LatestIs(b, r'))
  {
    var n, r' := |b.packages|, Progress(b, r, |b.packages|);
    ProgressKeepsVersions(b, r, n);
    if i :| 0 <= i < n && b.packages[i].name == RELEASE_ENTRY_PACKAGE {
      ProgressHas(b, r, i, n);
      assert Key(RELEASE_ENTRY_PACKAGE, b.version) in r'.versions;
    } else if Key(RELEASE_ENTRY_PACKAGE, b.version) in r.versions {
      assert Key(RELEASE_ENTRY_PACKAGE, b.version) in r'.versions;
    } else {
      var key :| key in r.versions && key.name == RELEASE_ENTRY_PACKAGE;
      assert key in r'.versions;
      ProgressKeepsLatest(b, r, n);
    }
  }

  lemma ProgressKeepsLatest(b: Bundle, r: Registry, k: nat)
    requires k <= |b.packages| + 1 && LatestIs(b, r)
    ensures LatestIs(b, Progress(b, r, k))
  {
  }

  /** A publishable registry takes one uninterrupted run to the end of its progress. */
  lemma PublishCompletes(b: Bundle, r: Registry, budget: nat)
    requires ValidBundle(b) && Publishable(b, r) && budget >= EnoughCommands(b)
    ensures Publish(b, World(r, budget), true).verdict.Success?
  {
    var n := |b.packages|;
    var w1 := Preflight(World(r, budget), 2).world;
    RoundsComplete(b, w1, n);
    var j := RoundsStop(b, w1, n);
    var w2 := PublishRounds(b, w1, n).world;
    ProgressKnowsEntry(b, r);
    EnsureDistTagEffect(b, w2, RELEASE_ENTRY_PACKAGE, LATEST_DIST_TAG);
    var Outcome(moved, w3) := EnsureDistTag(b, w2, RELEASE_ENTRY_PACKAGE, LATEST_DIST_TAG);
    assert moved.Success? && w3.budget >= w2.budget - 2 && w3.registry == Progress(b, r, n + 1);
    FinalIsAccepted(b, r);
    VerifyAcceptsExactly(b, w3);
  }

  lemma FinalIsAccepted(b: Bundle, r: Registry)
    requires ValidBundle(b) && Publishable(b, r)
    ensures var final := Progress(b, r, |b.packages| + 1);
            Released(b, final) && Known(final, RELEASE_ENTRY_PACKAGE) && LatestIs(b, final)
  {
    ProgressReleases(b, r, |b.packages| + 1);
    ProgressKnowsEntry(b, r);
    var key :| key in Progress(b, r, |b.packages|).versions && key.name == RELEASE_ENTRY_PACKAGE;
    assert key in Progress(b, r, |b.packages| + 1).versions;
  }

  /** Only a publishable registry does. */
  lemma CompletedIsPublishable(b: Bundle, w: World, confirmed: bool)
    requires ValidBundle(b) && Publish(b, w, confirmed).verdict.Success?
    ensures Publishable(b, w.registry)
  {
    var n := |b.packages|;
    var r := w.registry;
    var j := RunStops(b, w, confirmed);
    forall p | p in b.packages ensures Compatible(b, r, p) {
      var i :| 0 <= i < n && b.packages[i] == p;
    }
    var w1 := Preflight(w, 2).world;
    var k := RoundsStop(b, w1, n);
    var w2 := PublishRounds(b, w1, n).world;
    EnsureDistTagEffect(b, w2, RELEASE_ENTRY_PACKAGE, LATEST_DIST_TAG);
    if !ShipsEntry(b) {
      EntryOutsideBundle(b, r, n);
      KnownOutsideBundle(b, r, n);
    }
  }

  /** A package outside the bundle is untouched until `latest` moves. */
  lemma EntryOutsideBundle(b: Bundle, r: Registry, k: nat)
    requires k <= |b.packages| && !ShipsEntry(b)
    ensures Key(RELEASE_ENTRY_PACKAGE, b.version) in Progress(b, r, k).versions ==>
        Key(RELEASE_ENTRY_PACKAGE, b.version) in r.versions
    ensures LatestIs(b, Progress(b, r, k)) ==> LatestIs(b, r)
  {
    if k > 0 {
      assert b.packages[k - 1] in b.packages;
      EntryOutsideBundle(b, r, k - 1);
    }
  }

  lemma KnownOutsideBundle(b: Bundle, r: Registry, k: nat)
    requires k <= |b.packages| && !ShipsEntry(b)
    ensures Known(Progress(b, r, k), RELEASE_ENTRY_PACKAGE) ==> Known(r, RELEASE_ENTRY_PACKAGE)
  {
    var r' := Progress(b, r, k);
    if key :| key in r'.versions && key.name == RELEASE_ENTRY_PACKAGE {
      if key !in r.versions {
        var i := ProgressVersionsOrigin(b, r, k, key.name, key.slot);
        assert b.packages[i] in b.packages;
      }
    }
  }

  // ----- interrupted runs

  /** The registry after a series of runs, each cut off after its own number of commands. */
  function AfterRuns(b: Bundle, r: Registry, budgets: seq<nat>): Registry {
    if budgets == [] then r else
    Publish(b, World(AfterRuns(b, r, budgets[..|budgets| - 1]), budgets[|budgets| - 1]), true).world.registry
  }

  lemma {:induction false} RunsStop(b: Bundle, r: Registry, budgets: seq<nat>) returns (j: nat)
    requires ValidBundle(b)
    ensures StoppedAt(b, r, AfterRuns(b, r, budgets), j)
  {
    if budgets == [] { return 0; }
    var earlier := AfterRuns(b, r, budgets[..|budgets| - 1]);
    var i := RunsStop(b, r, budgets[..|budgets| - 1]);
    var k := RunStops(b, World(earlier, budgets[|budgets| - 1]), true);
    ProgressResumes(b, r, i, k);
    j := if i < k then k else i;
    forall n | 0 <= n < j && n < |b.packages| ensures Compatible(b, r, b.packages[n]) {
      ProgressStaysCompatible(b, r, i, n);
    }
  }

  lemma StoppedStaysCompatible(b: Bundle, r: Registry, r': Registry, j: nat)
    requires ValidBundle(b) && StoppedAt(b, r, r', j) && Publishable(b, r')
    ensures forall p :: p in b.packages ==> Compatible(b, r, p)
  {
    forall p | p in b.packages ensures Compatible(b, r, p) {
      var i :| 0 <= i < |b.packages| && b.packages[i] == p;
      ProgressStaysCompatible(b, r, j, i);
    }
  }

  /** The registry of a finished publication. */
  function Final(b: Bundle, r: Registry): Registry {
    Progress(b, r, |b.packages| + 1)
  }

  lemma UninterruptedRun(b: Bundle, r: Registry, enough: nat)
    requires ValidBundle(b) && Publishable(b, r) && enough >= EnoughCommands(b)
    ensures Publish(b, World(r, enough), true).verdict.Success?
    ensures Publish(b, World(r, enough), true).world.registry == Final(b, r)
  {
    PublishCompletes(b, r, enough);
    var j := RunStops(b, World(r, enough), true);
  }

  lemma ResumedRun(b: Bundle, r: Registry, budgets: seq<nat>, budget: nat)
    requires ValidBundle(b)
    requires Publish(b, World(AfterRuns(b, r, budgets), budget), true).verdict.Success?
    ensures Publish(b, World(AfterRuns(b, r, budgets), budget), true).world.registry == Final(b, r)
  {
    hide Publish;
    var i := RunsStop(b, r, budgets);
    var k := RunStops(b, World(AfterRuns(b, r, budgets), budget), true);
    ProgressResumes(b, r, i, |b.packages| + 1);
  }

  lemma EntryStaysReady(b: Bundle, r: Registry, j: nat)
    requires EntryReady(b, r) && j <= |b.packages| + 1
    ensures EntryReady(b, Progress(b, r, j))
  {
    ProgressKeepsVersions(b, r, j);
    if Known(r, RELEASE_ENTRY_PACKAGE) && LatestIs(b, r) {
      var key :| key in r.versions && key.name == RELEASE_ENTRY_PACKAGE;
      assert key in Progress(b, r, j).versions;
      ProgressKeepsLatest(b, r, j);
    }
  }

  /** No run readies `latest` of an entry package it does not ship. */
  lemma RunLeavesEntry(b: Bundle, w: World, confirmed: bool)
    requires ValidBundle(b) && EntryReady(b, Publish(b, w, confirmed).world.registry)
    ensures EntryReady(b, w.registry)
  {
    hide PublishOne, Known, LatestIs, SetTag, Progress;
    var n, r := |b.packages|, w.registry;
    var Outcome(ready, w1) := Preflight(w, 2);
    if !ShipsEntry(b) && ready.Success? && confirmed {
      var j := RoundsStop(b, w1, n);
      EntryOutsideBundle(b, r, j);
      KnownOutsideBundle(b, r, j);
      var Outcome(published, w2) := PublishRounds(b, w1, n);
      if published.Success? {
        EnsureDistTagEffect(b, w2, RELEASE_ENTRY_PACKAGE, LATEST_DIST_TAG);
        VerifyOnlyReads(b, EnsureDistTag(b, w2, RELEASE_ENTRY_PACKAGE, LATEST_DIST_TAG).world);
      }
    }
  }

  lemma {:induction false} RunsLeaveEntry(b: Bundle, r: Registry, budgets: seq<nat>)
    requires ValidBundle(b) && EntryReady(b, AfterRuns(b, r, budgets))
    ensures EntryReady(b, r)
  {
    hide Publish, EntryReady;
    if budgets != [] {
      var before := budgets[..|budgets| - 1];
      RunLeavesEntry(b, World(AfterRuns(b, r, before), budgets[|budgets| - 1]), true);
      RunsLeaveEntry(b, r, before);
    }
  }

  /** What interrupted runs leave is publishable exactly when the start was. */
  lemma RunsKeepPublishable(b: Bundle, r: Registry, budgets: seq<nat>)
    requires ValidBundle(b)
    ensures Publishable(b, AfterRuns(b, r, budgets)) <==> Publishable(b, r)
  {
    hide AfterRuns;
    var j := RunsStop(b, r, budgets);
    var r' := AfterRuns(b, r, budgets);
    if Publishable(b, r) {
      forall p | p in b.packages ensures Compatible(b, r', p) {
        var i :| 0 <= i < |b.packages| && b.packages[i] == p;
        ProgressStaysCompatible(b, r, j, i);
      }
      EntryStaysReady(b, r, j);
    }
    if Publishable(b, r') {
      RunsLeaveEntry(b, r, budgets);
      StoppedStaysCompatible(b, r, r', j);
    }
  }

  /** Any series of interrupted runs, then one that completes: an uninterrupted run from
      the start would have completed too and left the same registry, and verification
      accepts it. */
  lemma CrashResumable(b: Bundle, r: Registry, budgets: seq<nat>, budget: nat, enough: nat)
    requires ValidBundle(b) && enough >= EnoughCommands(b)
    requires Publish(b, World(AfterRuns(b, r, budgets), budget), true).verdict.Success?
    ensures var resumed := Publish(b, World(AfterRuns(b, r, budgets), budget), true).world.registry;
            && Publish(b, World(r, enough), true).verdict.Success?
            && resumed == Publish(b, World(r, enough), true).world.registry
            && RegistrySpec.Verify(b, World(resumed, enough)).verdict.Success?
            && Released(b, resumed) && LatestIs(b, resumed)
  {
    CompletedIsPublishable(b, World(AfterRuns(b, r, budgets), budget), true);
    RunsKeepPublishable(b, r, budgets);
    hide *;
    UninterruptedRun(b, r, enough);
    ResumedRun(b, r, budgets, budget);
    FinalIsVerified(b, r, enough);
  }

  lemma FinalIsVerified(b: Bundle, r: Registry, enough: nat)
    requires ValidBundle(b) && Publishable(b, r) && enough >= EnoughCommands(b)
    ensures RegistrySpec.Verify(b, World(Final(b, r), enough)).verdict.Success?
    ensures Released(b, Final(b, r)) && LatestIs(b, Final(b, r))
  {
    hide VerifyAll;
    FinalIsAccepted(b, r);
    VerifyAcceptsExactly(b, Preflight(World(Final(b, r), enough), 1).world);
  }

  /** However often runs were cut off, with commands enough the next one completes exactly
      when the registry was publishable before the first of them. */
  lemma CompletionSurvivesCrashes(b: Bundle, r: Registry, budgets: seq<nat>, budget: nat)
    requires ValidBundle(b) && budget >= EnoughCommands(b)
    ensures Publish(b, World(AfterRuns(b, r, budgets), budget), true).verdict.Success? <==> Publishable(b, r)
  {
    hide Publish, Publishable;
    var r' := AfterRuns(b, r, budgets);
    RunsKeepPublishable(b, r, budgets);
    if Publishable(b, r) { PublishCompletes(b, r', budget); }
    if Publish(b, World(r', budget), true).verdict.Success? { CompletedIsPublishable(b, World(r', budget), true); }
  }

  // ----- when `latest` may move

  /** The release tag is not itself `latest`, or the entry package comes last. */
  predicate LatestMovesLast(b: Bundle) {
    b.distTag != LATEST_DIST_TAG || forall i | 0 <= i < |b.packages| - 1 :: b.packages[i].name != RELEASE_ENTRY_PACKAGE
  }

  /** The tag `latest` of the entry package is not where it was. */
  ghost predicate LatestMoved(r: Registry, r': Registry) {
    var key := Key(RELEASE_ENTRY_PACKAGE, LATEST_DIST_TAG);
    if key in r.tags then key !in r'.tags || r'.tags[key] != r.tags[key] else key in r'.tags
  }

  lemma {:induction false} LatestWaits(b: Bundle, r: Registry, k: nat)
    requires LatestMovesLast(b) && k < |b.packages|
    ensures !LatestMoved(r, Progress(b, r, k))
  {
    if k > 0 { LatestWaits(b, r, k - 1); }
  }

  lemma LatestMovesOnlyWhenReleased(b: Bundle, w: World, confirmed: bool)
    requires ValidBundle(b) && LatestMovesLast(b)
    ensures LatestMoved(w.registry, Publish(b, w, confirmed).world.registry) ==>
        Released(b, Publish(b, w, confirmed).world.registry)
  {
    var j := RunStops(b, w, confirmed);
    if j < |b.packages| {
      LatestWaits(b, w.registry, j);
    } else {
      forall p | p in b.packages ensures Compatible(b, w.registry, p) {
        var i :| 0 <= i < |b.packages| && b.packages[i] == p;
      }
      ProgressReleases(b, w.registry, j);
    }
  }

  const EMPTY_REGISTRY := Registry(map[], map[])

  lemma FreshRound(b: Bundle, w: World, p: PackedPackage)
    requires Key(p.name, b.version) !in w.registry.versions && w.budget >= 3
    ensures PublishOne(b, w, p) == Outcome(Success, World(AddPackage(b, w.registry, p), w.budget - 3))
  {
    var r' := AddPackage(b, w.registry, p);
    assert Key(p.name, b.version) in r'.versions && Known(r', p.name);
  }

  lemma FreshPackage(b: Bundle, k: nat)
    requires ValidBundle(b) && k < |b.packages|
    ensures Key(b.packages[k].name, b.version) !in Progress(b, EMPTY_REGISTRY, k).versions
  {
    if Key(b.packages[k].name, b.version) in Progress(b, EMPTY_REGISTRY, k).versions {
      var i := ProgressVersionsOrigin(b, EMPTY_REGISTRY, k, b.packages[k].name, b.version);
      assert false;
    }
  }

  lemma {:induction false} FreshRounds(b: Bundle, k: nat, budget: nat)
    requires ValidBundle(b) && k <= |b.packages| && budget >= 3 * k
    ensures PublishRounds(b, World(EMPTY_REGISTRY, budget), k)
        == Outcome(Success, World(Progress(b, EMPTY_REGISTRY, k), budget - 3 * k))
  {
    hide PublishOne;
    if k > 0 {
      FreshRounds(b, k - 1, budget);
      FreshPackage(b, k - 1);
      NextRound(b, World(EMPTY_REGISTRY, budget), k - 1);
      FreshRound(b, World(Progress(b, EMPTY_REGISTRY, k - 1), budget - 3 * (k - 1)), b.packages[k - 1]);
    }
  }

  lemma RoundNeedsBudget(b: Bundle, r: Registry, p: PackedPackage)
    ensures PublishOne(b, World(r, 0), p) == Outcome(Failure(Interrupted), World(r, 0))
  {
  }

  /** A first publication cut off right after `k` packages. */
  lemma CutOffRun(b: Bundle, k: nat)
    requires ValidBundle(b) && k < |b.packages|
    ensures Publish(b, World(EMPTY_REGISTRY, 3 * k + 2), true).world.registry == Progress(b, EMPTY_REGISTRY, k)
  {
    hide Conclude, Progress, PublishRounds, PublishOne;
    var w1 := World(EMPTY_REGISTRY, 3 * k);
    FreshRounds(b, k, 3 * k);
    NextRound(b, w1, k);
    RoundNeedsBudget(b, Progress(b, EMPTY_REGISTRY, k), b.packages[k]);
    FailedRoundsStay(b, w1, k + 1, |b.packages|);
  }

  lemma LatestMovesAt(b: Bundle, i: nat)
    requires ValidBundle(b) && i + 1 < |b.packages| && b.packages[i].name == RELEASE_ENTRY_PACKAGE
        && b.distTag == LATEST_DIST_TAG
    ensures var r' := Publish(b, World(EMPTY_REGISTRY, 3 * (i + 1) + 2), true).world.registry;
            LatestMoved(EMPTY_REGISTRY, r') && !Released(b, r')
  {
    hide *;
    CutOffRun(b, i + 1);
    ProgressHas(b, EMPTY_REGISTRY, i, i + 1);
    FreshPackage(b, i + 1);
    EarlyLatest(b, Progress(b, EMPTY_REGISTRY, i + 1), i);
  }

  /** Otherwise a first publication cut off right after the entry package has moved
      `latest` while a later package is still missing. */
  lemma LatestMovesEarly(b: Bundle) returns (budget: nat)
    requires ValidBundle(b) && !LatestMovesLast(b)
    ensures var r' := Publish(b, World(EMPTY_REGISTRY, budget), true).world.registry;
            LatestMoved(EMPTY_REGISTRY, r') && !Released(b, r')
  {
    var i :| 0 <= i < |b.packages| - 1 && b.packages[i].name == RELEASE_ENTRY_PACKAGE;
    hide *;
    budget := 3 * (i + 1) + 2;
    LatestMovesAt(b, i);
  }

  lemma EarlyLatest(b: Bundle, r': Registry, i: nat)
    requires i + 1 < |b.packages| && b.packages[i].name == RELEASE_ENTRY_PACKAGE && b.distTag == LATEST_DIST_TAG
    requires Key(b.packages[i].name, b.distTag) in r'.tags
    requires Key(b.packages[i + 1].name, b.version) !in r'.versions
    ensures LatestMoved(EMPTY_REGISTRY, r') && !Released(b, r')
  {
    var next := b.packages[i + 1];
    assert next in b.packages;
  }

  /** Exactly when no run, however cut off, moves `latest` before everything is released. */
  lemma LatestSafetyCondition(b: Bundle)
    requires ValidBundle(b)
    ensures LatestMovesLast(b) <==>
            forall w: World, confirmed: bool :: LatestMoved(w.registry, Publish(b, w, confirmed).world.registry) ==>
              Released(b, Publish(b, w, confirmed).world.registry)
  {
    if LatestMovesLast(b) {
      forall w: World, confirmed: bool
        ensures LatestMoved(w.registry, Publish(b, w, confirmed).world.registry) ==>
            Released(b, Publish(b, w, confirmed).world.registry)
      {
        LatestMovesOnlyWhenReleased(b, w, confirmed);
      }
    } else {
      var budget := LatestMovesEarly(b);
      var w := World(EMPTY_REGISTRY, budget);
      assert LatestMoved(w.registry, Publish(b, w, true).world.registry)
        && !Released(b, Publish(b, w, true).world.registry);
    }
  }
}
