/** The publisher, command by command. */
module Publication {
  import opened RegistrySpec

  // Wherever a run is cut off, the registry is at one of the steps of the uninterrupted
  // run, and versions only appear.

  class RegistryPublication {
    const bundle: Bundle
    var registry: Registry
    var budget: nat

    ghost function Now(): World
      reads this
    {
      World(registry, budget)
    }

    constructor (bundle: Bundle, registry: Registry, budget: nat)
      ensures this.bundle == bundle && Now() == World(registry, budget)
    {
      this.bundle, this.registry, this.budget := bundle, registry, budget;
    }

    method RemoteIntegrity(name: string) returns (reading: Reading)
      modifies this
      ensures Query(reading, Now()) == RegistrySpec.RemoteIntegrity(bundle, old(Now()), name)
    {
      if budget == 0 { return Unreadable(Interrupted); }
      budget := budget - 1;
      if Key(name, bundle.version) !in registry.versions { return Absent; }
      var integrity := registry.versions[Key(name, bundle.version)];
      if !(INTEGRITY_PREFIX <= integrity) { return Unreadable(NoIntegrity(name)); }
      return Found(integrity);
    }

    method RemoteDistTag(name: string, tag: string) returns (reading: Reading)
      modifies this
      ensures Query(reading, Now()) == RegistrySpec.RemoteDistTag(old(Now()), name, tag)
    {
      if budget == 0 { return Unreadable(Interrupted); }
      budget := budget - 1;
      if !Known(registry, name) { return Unreadable(NpmFailure(name)); }
      if Key(name, tag) !in registry.tags { return Absent; }
      return Found(registry.tags[Key(name, tag)]);
    }

    method NpmPublish(pkg: PackedPackage) returns (verdict: Verdict)
      modifies this
      ensures Outcome(verdict, Now()) == RegistrySpec.NpmPublish(bundle, old(Now()), pkg)
    {
      if budget == 0 { return Failure(Interrupted); }
      budget := budget - 1;
      if Key(pkg.name, bundle.version) in registry.versions { return Failure(NpmFailure(pkg.name)); }
      registry := Registry(registry.versions[Key(pkg.name, bundle.version) := pkg.integrity],
                           registry.tags[Key(pkg.name, bundle.distTag) := bundle.version]);
      return Success;
    }

    method NpmDistTagAdd(name: string, tag: string) returns (verdict: Verdict)
      modifies this
      ensures Outcome(verdict, Now()) == RegistrySpec.NpmDistTagAdd(bundle, old(Now()), name, tag)
    {
      if budget == 0 { return Failure(Interrupted); }
      budget := budget - 1;
      if Key(name, bundle.version) !in registry.versions { return Failure(NpmFailure(name)); }
      registry := Registry(registry.versions, registry.tags[Key(name, tag) := bundle.version]);
      return Success;
    }

    method EnsureDistTag(name: string, tag: string) returns (verdict: Verdict)
      modifies this
      ensures Outcome(verdict, Now()) == RegistrySpec.EnsureDistTag(bundle, old(Now()), name, tag)
    {
      var current := RemoteDistTag(name, tag);
      if current.Unreadable? { return Failure(current.error); }
      if current == Found(bundle.version) { return Success; }
      verdict := NpmDistTagAdd(name, tag);
    }

    method PublishPackage(pkg: PackedPackage) returns (verdict: Verdict)
      modifies this
      ensures Outcome(verdict, Now()) == PublishOne(bundle, old(Now()), pkg)
    {
      var existing := RemoteIntegrity(pkg.name);
      if existing.Unreadable? { return Failure(existing.error); }
      if existing.Absent? {
        verdict := NpmPublish(pkg);
        if verdict.Failure? { return; }
      } else if existing.text != pkg.integrity {
        return Failure(DifferentIntegrity(pkg.name));
      }
      verdict := EnsureDistTag(pkg.name, bundle.distTag);
    }

    method PublishPackages() returns (verdict: Verdict)
      modifies this
      ensures Outcome(verdict, Now()) == PublishRounds(bundle, old(Now()), |bundle.packages|)
    {
      hide PublishOne;
      ghost var start := Now();
      for k := 0 to |bundle.packages|
        invariant Outcome(Success, Now()) == PublishRounds(bundle, start, k)
      {
        verdict := PublishPackage(bundle.packages[k]);
        if verdict.Failure? {
          FailedRoundsStay(bundle, start, k + 1, |bundle.packages|);
          return;
        }
      }
      return Success;
    }

    method Publish(confirmed: bool) returns (verdict: Verdict)
      modifies this
      ensures Outcome(verdict, Now()) == RegistrySpec.Publish(bundle, old(Now()), confirmed)
    {
      if budget < 2 { budget := 0; return Failure(Interrupted); }
      budget := budget - 2;
      if !confirmed { return Failure(Cancelled); }
      verdict := PublishPackages();
      if verdict.Failure? { return; }
      verdict := EnsureDistTag(RELEASE_ENTRY_PACKAGE, LATEST_DIST_TAG);
      if verdict.Failure? { return; }
      verdict := VerifyBundle();
    }

    method Verify() returns (verdict: Verdict)
      modifies this
      ensures Outcome(verdict, Now()) == RegistrySpec.Verify(bundle, old(Now()))
    {
      if budget < 1 { budget := 0; return Failure(Interrupted); }
      budget := budget - 1;
      verdict := VerifyBundle();
    }

    method VerifyTag(name: string, tag: string) returns (verdict: Verdict)
      modifies this
      ensures Outcome(verdict, Now()) == RegistrySpec.VerifyTag(bundle, old(Now()), name, tag)
    {
      var current := RemoteDistTag(name, tag);
      if current.Unreadable? { return Failure(current.error); }
      if current != Found(bundle.version) { return Failure(TagMismatch(name, tag)); }
      return Success;
    }

    method VerifyPackage(pkg: PackedPackage) returns (verdict: Verdict)
      modifies this
      ensures Outcome(verdict, Now()) == VerifyOne(bundle, old(Now()), pkg)
    {
      var existing := RemoteIntegrity(pkg.name);
      if existing.Unreadable? { return Failure(existing.error); }
      if existing.Absent? { return Failure(PackageMissing(pkg.name)); }
      if existing.text != pkg.integrity { return Failure(IntegrityMismatch(pkg.name)); }
      verdict := VerifyTag(pkg.name, bundle.distTag);
    }

    method VerifyBundle() returns (verdict: Verdict)
      modifies this
      ensures Outcome(verdict, Now()) == VerifyAll(bundle, old(Now()))
    {
      ghost var start := Now();
      for k := 0 to |bundle.packages|
        invariant Outcome(Success, Now()) == VerifyRounds(bundle, start, k)
      {
        verdict := VerifyPackage(bundle.packages[k]);
        if verdict.Failure? {
          FailedChecksStay(bundle, start, k + 1, |bundle.packages|);
          return;
        }
      }
      verdict := VerifyTag(RELEASE_ENTRY_PACKAGE, LATEST_DIST_TAG);
    }
  }

  lemma FailedRoundsStay(b: Bundle, w: World, j: nat, k: nat)
    requires j <= k <= |b.packages| && PublishRounds(b, w, j).verdict.Failure?
    ensures PublishRounds(b, w, k) == PublishRounds(b, w, j)
  {
  }

  lemma FailedChecksStay(b: Bundle, w: World, j: nat, k: nat)
    requires j <= k <= |b.packages| && VerifyRounds(b, w, j).verdict.Failure?
    ensures VerifyRounds(b, w, k) == VerifyRounds(b, w, j)
  {
  }

  // ----- what a run leaves behind, wherever it stops

  /** The registry after the first `k` packages; one step further, `latest` has moved. */
  function Progress(b: Bundle, r: Registry, k: nat): Registry
    requires k <= |b.packages| + 1
  {
    if k == 0 then r
    else if k <= |b.packages| then AddPackage(b, Progress(b, r, k - 1), b.packages[k - 1])
    else SetTag(b, Progress(b, r, k - 1), RELEASE_ENTRY_PACKAGE, LATEST_DIST_TAG)
  }

  predicate Compatible(b: Bundle, r: Registry, pkg: PackedPackage) {
    Key(pkg.name, b.version) in r.versions ==> r.versions[Key(pkg.name, b.version)] == pkg.integrity
  }

  /** What loading a bundle checks: packages, one of a name, with the integrity of
      their tarballs. */
  ghost predicate ValidBundle(b: Bundle) {
    && |b.packages| > 0
    && (forall i, j :: 0 <= i < j < |b.packages| ==> b.packages[i].name != b.packages[j].name)
    && (forall p :: p in b.packages ==> INTEGRITY_PREFIX <= p.integrity)
  }

  predicate PackageReleased(b: Bundle, r: Registry, p: PackedPackage) {
    && Key(p.name, b.version) in r.versions && r.versions[Key(p.name, b.version)] == p.integrity
    && Key(p.name, b.distTag) in r.tags && r.tags[Key(p.name, b.distTag)] == b.version
  }

  /** Every package of the bundle has its recorded integrity and the release tag. */
  ghost predicate Released(b: Bundle, r: Registry) {
    forall p :: p in b.packages ==> PackageReleased(b, r, p)
  }

  ghost predicate LatestIs(b: Bundle, r: Registry) {
    Key(RELEASE_ENTRY_PACKAGE, LATEST_DIST_TAG) in r.tags
      && r.tags[Key(RELEASE_ENTRY_PACKAGE, LATEST_DIST_TAG)] == b.version
  }

  lemma EnsureDistTagEffect(b: Bundle, w: World, name: string, tag: string)
    ensures var Outcome(reply, w') := EnsureDistTag(b, w, name, tag);
            && w'.budget <= w.budget
            && (w'.registry == w.registry || w'.registry == SetTag(b, w.registry, name, tag))
            && (reply.Success? ==> Known(w.registry, name) && w'.registry == SetTag(b, w.registry, name, tag))
            && (w'.registry != w.registry ==> Key(name, b.version) in w.registry.versions)
  {
    if RemoteDistTag(w, name, tag).reading == Found(b.version) {
      assert w.registry.tags[Key(name, tag) := b.version] == w.registry.tags;
    }
  }

  /** One round either changes nothing or leaves the package fully released. */
  lemma PublishOneEffect(b: Bundle, w: World, pkg: PackedPackage)
    ensures var Outcome(reply, w') := PublishOne(b, w, pkg);
            && w'.budget <= w.budget
            && (w'.registry == w.registry || w'.registry == AddPackage(b, w.registry, pkg))
            && (reply.Success? ==> w'.registry == AddPackage(b, w.registry, pkg))
            && (w'.registry != w.registry || reply.Success? ==> Compatible(b, w.registry, pkg))
  {
    var existing := RemoteIntegrity(b, w, pkg.name);
    if existing.reading.Absent? {
      var published := NpmPublish(b, existing.world, pkg);
      EnsureDistTagEffect(b, published.world, pkg.name, b.distTag);
      assert published.verdict.Success? ==>
          SetTag(b, published.world.registry, pkg.name, b.distTag).tags == published.world.registry.tags;
    } else {
      EnsureDistTagEffect(b, existing.world, pkg.name, b.distTag);
    }
  }

  // ----- progress only moves forward

  lemma ProgressKeepsVersions(b: Bundle, r: Registry, k: nat)
    requires k <= |b.packages| + 1
    ensures forall key :: key in r.versions ==>
        key in Progress(b, r, k).versions && Progress(b, r, k).versions[key] == r.versions[key]
  {
  }

  /** A key of this version is there because it was, or because its package was added. */
  lemma ProgressVersionsOrigin(b: Bundle, r: Registry, k: nat, name: string, version: string) returns (i: nat)
    requires k <= |b.packages| + 1
    requires Key(name, version) in Progress(b, r, k).versions && Key(name, version) !in r.versions
    ensures i < k && i < |b.packages| && b.packages[i].name == name && version == b.version
    ensures Progress(b, r, k).versions[Key(name, version)] == b.packages[i].integrity
  {
    if Key(name, version) in Progress(b, r, k - 1).versions {
      i := ProgressVersionsOrigin(b, r, k - 1, name, version);
    } else {
      i := k - 1;
    }
  }

  lemma ProgressHas(b: Bundle, r: Registry, i: nat, k: nat)
    requires i < k <= |b.packages| + 1 && i < |b.packages|
    ensures var p, r' := b.packages[i], Progress(b, r, k);
            && Key(p.name, b.version) in r'.versions
            && Key(p.name, b.distTag) in r'.tags && r'.tags[Key(p.name, b.distTag)] == b.version
  {
    if i < k - 1 { ProgressHas(b, r, i, k - 1); }
  }

  lemma ProgressStaysCompatible(b: Bundle, r: Registry, k: nat, i: nat)
    requires ValidBundle(b) && k <= |b.packages| + 1 && i < |b.packages|
    ensures Compatible(b, r, b.packages[i]) ==> Compatible(b, Progress(b, r, k), b.packages[i])
    ensures Compatible(b, Progress(b, r, k), b.packages[i]) ==> Compatible(b, r, b.packages[i])
  {
    ProgressKeepsVersions(b, r, k);
    var key := Key(b.packages[i].name, b.version);
    if key in Progress(b, r, k).versions && key !in r.versions {
      var j := ProgressVersionsOrigin(b, r, k, key.name, key.slot);
      assert i == j;
    }
  }

  /** Starting over from any point of a run leads where the run was going. */
  lemma {:induction false} ProgressResumes(b: Bundle, r: Registry, j: nat, k: nat)
    requires j <= |b.packages| + 1 && k <= |b.packages| + 1
    ensures Progress(b, Progress(b, r, j), k) == Progress(b, r, if j < k then k else j)
  {
    var there := Progress(b, r, j);
    if k > 0 {
      ProgressResumes(b, r, j, k - 1);
      if k <= j {
        if k <= |b.packages| {
          var p := b.packages[k - 1];
          ProgressHas(b, r, k - 1, j);
          assert there.tags[Key(p.name, b.distTag) := b.version] == there.tags;
        } else {
          assert there.tags[Key(RELEASE_ENTRY_PACKAGE, LATEST_DIST_TAG) := b.version] == there.tags;
        }
      }
    }
  }

  // ----- where a run can stop

  /** The registry is at step `j` of the run, and the packages before it allowed that. */
  ghost predicate StoppedAt(b: Bundle, r: Registry, r': Registry, j: nat) {
    && j <= |b.packages| + 1
    && r' == Progress(b, r, j)
    && forall i :: 0 <= i < j && i < |b.packages| ==> Compatible(b, r, b.packages[i])
  }

  /** One more round, from step `k` of the run. */
  lemma RoundStops(b: Bundle, r: Registry, w: World, k: nat)
    requires ValidBundle(b) && k < |b.packages| && StoppedAt(b, r, w.registry, k)
    ensures var Outcome(reply, w') := PublishOne(b, w, b.packages[k]);
            && w'.budget <= w.budget
            && (StoppedAt(b, r, w'.registry, k + 1) || (reply.Failure? && w'.registry == w.registry))
  {
    PublishOneEffect(b, w, b.packages[k]);
    ProgressStaysCompatible(b, r, k, k);
  }

  lemma NextRound(b: Bundle, w: World, k: nat)
    requires k < |b.packages| && PublishRounds(b, w, k).verdict.Success?
    ensures PublishRounds(b, w, k + 1) == PublishOne(b, PublishRounds(b, w, k).world, b.packages[k])
  {
  }

  lemma RoundsStop(b: Bundle, w: World, k: nat) returns (j: nat)
    requires ValidBundle(b) && k <= |b.packages|
    ensures var Outcome(reply, w') := PublishRounds(b, w, k);
            && w'.budget <= w.budget
            && j <= k && StoppedAt(b, w.registry, w'.registry, j)
            && (reply.Success? ==> j == k)
  {
    hide PublishOne;
    if k == 0 { return 0; }
    j := RoundsStop(b, w, k - 1);
    var Outcome(earlier, w1) := PublishRounds(b, w, k - 1);
    if earlier.Success? {
      NextRound(b, w, k - 1);
      RoundStops(b, w.registry, w1, k - 1);
      var Outcome(reply, w') := PublishOne(b, w1, b.packages[k - 1]);
      if reply.Success? || w'.registry != w1.registry { j := k; }
    }
  }

  lemma ChecksOnlyRead(b: Bundle, w: World, k: nat)
    requires k <= |b.packages|
    ensures VerifyRounds(b, w, k).world.registry == w.registry && VerifyRounds(b, w, k).world.budget <= w.budget
  {
  }

  lemma VerifyOnlyReads(b: Bundle, w: World)
    ensures VerifyAll(b, w).world.registry == w.registry
  {
    ChecksOnlyRead(b, w, |b.packages|);
  }

  lemma ConclusionStops(b: Bundle, r: Registry, w: World)
    requires StoppedAt(b, r, w.registry, |b.packages|)
    ensures var Outcome(reply, w') := Conclude(b, w);
            && (StoppedAt(b, r, w'.registry, |b.packages|) || StoppedAt(b, r, w'.registry, |b.packages| + 1))
            && (reply.Success? ==> StoppedAt(b, r, w'.registry, |b.packages| + 1))
  {
    EnsureDistTagEffect(b, w, RELEASE_ENTRY_PACKAGE, LATEST_DIST_TAG);
    VerifyOnlyReads(b, EnsureDistTag(b, w, RELEASE_ENTRY_PACKAGE, LATEST_DIST_TAG).world);
  }

  /** Wherever a run stops, the registry is at one of the steps of the uninterrupted run. */
  lemma RunStops(b: Bundle, w: World, confirmed: bool) returns (j: nat)
    requires ValidBundle(b)
    ensures var Outcome(reply, w') := Publish(b, w, confirmed);
            && StoppedAt(b, w.registry, w'.registry, j)
            && (reply.Success? ==> j == |b.packages| + 1)
  {
    hide PublishOne, Conclude;
    var n := |b.packages|;
    var Outcome(ready, w1) := Preflight(w, 2);
    if ready.Failure? || !confirmed { return 0; }
    j := RoundsStop(b, w1, n);
    var Outcome(published, w2) := PublishRounds(b, w1, n);
    if published.Success? {
      ConclusionStops(b, w.registry, w2);
      if StoppedAt(b, w.registry, Conclude(b, w2).world.registry, n + 1) { j := n + 1; }
    }
  }

  /** No run ever replaces a version that was there. */
  lemma VersionsAreImmutable(b: Bundle, w: World, confirmed: bool)
    requires ValidBundle(b)
    ensures var r' := Publish(b, w, confirmed).world.registry;
            forall key :: key in w.registry.versions ==>
              key in r'.versions && r'.versions[key] == w.registry.versions[key]
  {
    var j := RunStops(b, w, confirmed);
    ProgressKeepsVersions(b, w.registry, j);
  }
}
