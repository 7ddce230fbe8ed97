/** How a publication ends. */
module PublishVerdicts {
  import opened RegistrySpec
  import opened Publication
  import opened CrashResume

  // A run that is not confirmed changes nothing; any other fails with the first defect of
  // the registry it finds or, with too few commands, is cut off.

  // ----- confirmation

  lemma RoundNotCancelled(b: Bundle, w: World, p: PackedPackage)
    ensures PublishOne(b, w, p).verdict != Failure(Cancelled) && VerifyOne(b, w, p).verdict != Failure(Cancelled)
  {
  }

  lemma {:induction false} RoundsNotCancelled(b: Bundle, w: World, k: nat)
    requires k <= |b.packages|
    ensures PublishRounds(b, w, k).verdict != Failure(Cancelled)
    ensures VerifyRounds(b, w, k).verdict != Failure(Cancelled)
  {
    hide PublishOne, VerifyOne;
    if k > 0 {
      RoundsNotCancelled(b, w, k - 1);
      RoundNotCancelled(b, PublishRounds(b, w, k - 1).world, b.packages[k - 1]);
      RoundNotCancelled(b, VerifyRounds(b, w, k - 1).world, b.packages[k - 1]);
    }
  }

  /** A run is cancelled exactly when it gets through the first two commands and is not
      confirmed. A run that is not confirmed changes nothing and never succeeds. */
  lemma CancelledIff(b: Bundle, w: World, confirmed: bool)
    ensures var Outcome(verdict, w') := Publish(b, w, confirmed);
            && (verdict == Failure(Cancelled) <==> !confirmed && w.budget >= 2)
            && (!confirmed ==> verdict.Failure? && w'.registry == w.registry && w.budget <= w'.budget + 2)
  {
    hide PublishRounds, VerifyRounds;
    if confirmed && w.budget >= 2 {
      var w1 := World(w.registry, w.budget - 2);
      RoundsNotCancelled(b, w1, |b.packages|);
      var w2 := PublishRounds(b, w1, |b.packages|).world;
      RoundsNotCancelled(b, EnsureDistTag(b, w2, RELEASE_ENTRY_PACKAGE, LATEST_DIST_TAG).world, |b.packages|);
    }
  }

  // ----- verification

  predicate TagIs(b: Bundle, r: Registry, name: string, tag: string) {
    Key(name, tag) in r.tags && r.tags[Key(name, tag)] == b.version
  }

  /** What this error says of the `k`-th package is true; behind the last stands the entry
      package with its `latest`. */
  ghost predicate VerifyDefect(b: Bundle, r: Registry, k: nat, error: PublishError)
    requires k <= |b.packages|
  {
    if k == |b.packages| then
      if Known(r, RELEASE_ENTRY_PACKAGE)
      then error == TagMismatch(RELEASE_ENTRY_PACKAGE, LATEST_DIST_TAG) && !LatestIs(b, r)
      else error == NpmFailure(RELEASE_ENTRY_PACKAGE)
    else
      var p := b.packages[k];
      var key := Key(p.name, b.version);
      match error
      case PackageMissing(name) => name == p.name && key !in r.versions
      case NoIntegrity(name) => name == p.name && key in r.versions && !(INTEGRITY_PREFIX <= r.versions[key])
      case IntegrityMismatch(name) =>
        name == p.name && key in r.versions && INTEGRITY_PREFIX <= r.versions[key] && r.versions[key] != p.integrity
      case TagMismatch(name, tag) =>
        && name == p.name && tag == b.distTag
        && key in r.versions && r.versions[key] == p.integrity && !TagIs(b, r, p.name, b.distTag)
      case _ => false
  }

  /** All packages before the `k`-th are released, and this is wrong with the `k`-th. */
  ghost predicate FirstVerifyDefect(b: Bundle, r: Registry, k: nat, error: PublishError) {
    && k <= |b.packages| && (forall i :: 0 <= i < k ==> PackageReleased(b, r, b.packages[i]))
    && VerifyDefect(b, r, k, error)
  }

  /** The commands it takes to see that. */
  function VerifyCommands(b: Bundle, k: nat, error: PublishError): nat {
    2 * k + if k < |b.packages| && error.TagMismatch? then 2 else 1
  }

  /** With these commands verification sees neither a defect nor the end. */
  ghost predicate EndsTooSoon(b: Bundle, w: World) {
    && w.budget < 2 * |b.packages| + 1
    && forall k, error :: FirstVerifyDefect(b, w.registry, k, error) ==> w.budget < VerifyCommands(b, k, error)
  }

  lemma VerifyOneFails(b: Bundle, w: World, k: nat, spent: nat, error: PublishError)
    requires ValidBundle(b) && k < |b.packages| && spent == 2 * k
    requires VerifyOne(b, w, b.packages[k]).verdict == Failure(error)
    ensures if error == Interrupted
            then w.budget < 2 && forall e :: VerifyDefect(b, w.registry, k, e) ==>
                                spent + w.budget < VerifyCommands(b, k, e)
            else VerifyDefect(b, w.registry, k, error) && spent + w.budget >= VerifyCommands(b, k, error)
  {
    assert b.packages[k] in b.packages;
    var key := Key(b.packages[k].name, b.version);
    if key in w.registry.versions { assert Known(w.registry, b.packages[k].name); }
  }

  /** A failed check of all packages failed at one, all before it being released. */
  lemma {:induction false} VerifyStopsAt(b: Bundle, w: World, k: nat) returns (j: nat)
    requires ValidBundle(b) && k <= |b.packages| && VerifyRounds(b, w, k).verdict.Failure?
    ensures j < k && w.budget >= 2 * j && forall i :: 0 <= i < j ==> PackageReleased(b, w.registry, b.packages[i])
    ensures VerifyRounds(b, w, k).verdict == VerifyOne(b, World(w.registry, w.budget - 2 * j), b.packages[j]).verdict
  {
    hide VerifyOne, PackageReleased;
    if VerifyRounds(b, w, k - 1).verdict.Failure? {
      j := VerifyStopsAt(b, w, k - 1);
    } else {
      j := k - 1;
      ChecksPass(b, w, j);
    }
  }

  lemma DefectIsUnreleased(b: Bundle, r: Registry, k: nat, error: PublishError)
    requires ValidBundle(b) && k <= |b.packages| && VerifyDefect(b, r, k, error)
    ensures if k < |b.packages| then !PackageReleased(b, r, b.packages[k])
            else !(Known(r, RELEASE_ENTRY_PACKAGE) && LatestIs(b, r))
  {
    assert k < |b.packages| ==> b.packages[k] in b.packages;
  }

  lemma OneDefect(b: Bundle, r: Registry, k: nat, error: PublishError, j: nat, other: PublishError)
    requires ValidBundle(b) && FirstVerifyDefect(b, r, k, error) && FirstVerifyDefect(b, r, j, other)
    ensures k == j && error == other
  {
    hide PackageReleased;
    DefectIsUnreleased(b, r, k, error);
    DefectIsUnreleased(b, r, j, other);
  }

  lemma VerifyFailure(b: Bundle, w: World)
    requires ValidBundle(b)
    ensures match VerifyAll(b, w).verdict
            case Success => w.budget >= 2 * |b.packages| + 1 && forall k, e :: !FirstVerifyDefect(b, w.registry, k, e)
            case Failure(error) =>
              if error == Interrupted then EndsTooSoon(b, w)
              else exists k :: FirstVerifyDefect(b, w.registry, k, error) && w.budget >= VerifyCommands(b, k, error)
  {
    hide PackageReleased, VerifyOne, VerifyDefect;
    var r, n := w.registry, |b.packages|;
    var checked := VerifyRounds(b, w, n).verdict;
    if checked.Failure? {
      var j := VerifyStopsAt(b, w, n);
      VerifyOneFails(b, World(r, w.budget - 2 * j), j, 2 * j, checked.error);
      assert checked.error != Interrupted ==> FirstVerifyDefect(b, r, j, checked.error);
      forall k, e | checked.error == Interrupted && FirstVerifyDefect(b, r, k, e)
        ensures w.budget < VerifyCommands(b, k, e)
      {
        if k < j { DefectIsUnreleased(b, r, k, e); }
      }
    } else {
      ChecksPass(b, w, n);
      EntryAnswer(b, w);
    }
  }

  lemma EntryAnswer(b: Bundle, w: World)
    requires ValidBundle(b) && w.budget >= 2 * |b.packages|
    requires forall i :: 0 <= i < |b.packages| ==> PackageReleased(b, w.registry, b.packages[i])
    ensures var n, r := |b.packages|, w.registry;
            match VerifyTag(b, World(r, w.budget - 2 * n), RELEASE_ENTRY_PACKAGE, LATEST_DIST_TAG).verdict
            case Success => w.budget >= 2 * n + 1 && forall k, e :: !FirstVerifyDefect(b, r, k, e)
            case Failure(error) =>
              if error == Interrupted then EndsTooSoon(b, w)
              else FirstVerifyDefect(b, r, n, error) && w.budget >= VerifyCommands(b, n, error)
  {
    hide PackageReleased;
    forall k: nat, e | FirstVerifyDefect(b, w.registry, k, e)
      ensures k == |b.packages| && VerifyCommands(b, k, e) == 2 * k + 1
    {
      DefectIsUnreleased(b, w.registry, k, e);
    }
  }

  /** Verification fails with an error exactly when that is the first thing wrong and the
      commands suffice to see it; it is cut off exactly when they do not suffice. */
  lemma VerifyFailsExactly(b: Bundle, w: World, error: PublishError)
    requires ValidBundle(b)
    ensures VerifyAll(b, w).verdict == Failure(error) <==>
            if error == Interrupted then EndsTooSoon(b, w)
            else exists k :: FirstVerifyDefect(b, w.registry, k, error) && w.budget >= VerifyCommands(b, k, error)
  {
    hide FirstVerifyDefect, VerifyCommands, VerifyAll;
    VerifyFailure(b, w);
    forall k, j, e, other | FirstVerifyDefect(b, w.registry, k, e) && FirstVerifyDefect(b, w.registry, j, other)
      ensures k == j && e == other
    {
      OneDefect(b, w.registry, k, e, j, other);
    }
  }

  /** The command takes one more, the ping. */
  lemma VerifyCommandFailsExactly(b: Bundle, w: World, error: PublishError)
    requires ValidBundle(b)
    ensures RegistrySpec.Verify(b, w).verdict == Failure(error) <==>
            if error == Interrupted then w.budget == 0 || EndsTooSoon(b, World(w.registry, w.budget - 1))
            else exists k :: FirstVerifyDefect(b, w.registry, k, error) && w.budget > VerifyCommands(b, k, error)
  {
    hide FirstVerifyDefect, VerifyCommands, VerifyAll, EndsTooSoon;
    if w.budget > 0 { VerifyFailsExactly(b, World(w.registry, w.budget - 1), error); }
  }

  // ----- publication

  /** The commands that the first `k` rounds take, when nothing stops them. */
  function RoundCommands(b: Bundle, r: Registry, k: nat): nat
    requires k <= |b.packages|
  {
    if k == 0 then 0
    else RoundCommands(b, r, k - 1) + if PackageReleased(b, r, b.packages[k - 1]) then 2 else 3
  }

  /** What stands in the way at the `k`-th package: another integrity, or none; and behind the
      last, that `latest` of the entry package has nothing to name. */
  ghost predicate PublishDefect(b: Bundle, r: Registry, k: nat, error: PublishError)
    requires k <= |b.packages|
  {
    if k == |b.packages| then error == NpmFailure(RELEASE_ENTRY_PACKAGE) && !EntryReady(b, r)
    else
      var p := b.packages[k];
      var key := Key(p.name, b.version);
      && key in r.versions && r.versions[key] != p.integrity
      && error == if INTEGRITY_PREFIX <= r.versions[key] then DifferentIntegrity(p.name) else NoIntegrity(p.name)
  }

  ghost predicate FirstPublishDefect(b: Bundle, r: Registry, k: nat, error: PublishError) {
    && k <= |b.packages| && (forall i :: 0 <= i < k ==> Compatible(b, r, b.packages[i]))
    && PublishDefect(b, r, k, error)
  }

  /** The commands up to that. */
  ghost function PublishCommands(b: Bundle, r: Registry, k: nat): nat
    requires k <= |b.packages|
  {
    2 + RoundCommands(b, r, k)
    + if k == |b.packages| && Known(r, RELEASE_ENTRY_PACKAGE) then 2 else 1
  }

  /** The commands of a run that succeeds. */
  ghost function AllCommands(b: Bundle, r: Registry): nat {
    2 + RoundCommands(b, r, |b.packages|)
    + (if LatestIs(b, Progress(b, r, |b.packages|)) then 1 else 2)
    + 2 * |b.packages| + 1
  }

  /** A tag of a package of the bundle is moved by its own round only. */
  lemma {:induction false} ReleasedUntilThen(b: Bundle, r: Registry, k: nat, i: nat)
    requires ValidBundle(b) && k <= i < |b.packages|
    ensures PackageReleased(b, Progress(b, r, k), b.packages[i]) <==> PackageReleased(b, r, b.packages[i])
  {
    if k > 0 {
      ReleasedUntilThen(b, r, k - 1, i);
      assert b.packages[k - 1].name != b.packages[i].name;
    }
  }

  lemma RoundTakes(b: Bundle, w: World, p: PackedPackage)
    requires Compatible(b, w.registry, p) && INTEGRITY_PREFIX <= p.integrity
    ensures var cost := if PackageReleased(b, w.registry, p) then 2 else 3;
            if w.budget >= cost
            then PublishOne(b, w, p) == Outcome(Success, World(AddPackage(b, w.registry, p), w.budget - cost))
            else PublishOne(b, w, p).verdict == Failure(Interrupted)
  {
    var key, r' := Key(p.name, b.version), AddPackage(b, w.registry, p);
    assert key in r'.versions && Known(r', p.name);
    if key in w.registry.versions { assert Known(w.registry, p.name); }
    if PackageReleased(b, w.registry, p) {
      assert w.registry.tags[Key(p.name, b.distTag) := b.version] == w.registry.tags;
    }
  }

  /** Rounds over compatible packages take the run along, or it is cut off. */
  lemma {:induction false} RoundsTake(b: Bundle, w: World, k: nat)
    requires ValidBundle(b) && k <= |b.packages|
    requires forall i :: 0 <= i < k ==> Compatible(b, w.registry, b.packages[i])
    ensures if w.budget >= RoundCommands(b, w.registry, k)
            then PublishRounds(b, w, k)
              == Outcome(Success, World(Progress(b, w.registry, k), w.budget - RoundCommands(b, w.registry, k)))
            else PublishRounds(b, w, k).verdict == Failure(Interrupted)
  {
    hide PublishOne, PackageReleased;
    if k > 0 {
      RoundsTake(b, w, k - 1);
      if w.budget >= RoundCommands(b, w.registry, k - 1) {
        NextRound(b, w, k - 1);
        ProgressStaysCompatible(b, w.registry, k - 1, k - 1);
        ReleasedUntilThen(b, w.registry, k - 1, k - 1);
        RoundTakes(b, PublishRounds(b, w, k - 1).world, b.packages[k - 1]);
      }
    }
  }

  /** A round over another package says what is wrong with it, when it gets to see that. */
  lemma RoundFails(b: Bundle, w: World, k: nat)
    requires ValidBundle(b) && k < |b.packages| && !Compatible(b, w.registry, b.packages[k])
    ensures if w.budget == 0 then PublishOne(b, w, b.packages[k]).verdict == Failure(Interrupted)
            else
              var verdict := PublishOne(b, w, b.packages[k]).verdict;
              verdict.Failure? && verdict.error != Interrupted && PublishDefect(b, w.registry, k, verdict.error)
  {
  }

  /** The first package that is not compatible, or the number of packages. */
  lemma FirstIncompatible(b: Bundle, r: Registry, k: nat) returns (j: nat)
    requires k <= |b.packages|
    ensures k <= j <= |b.packages| && (forall i :: k <= i < j ==> Compatible(b, r, b.packages[i]))
    ensures j < |b.packages| ==> !Compatible(b, r, b.packages[j])
    decreases |b.packages| - k
  {
    j := k;
    if k < |b.packages| && Compatible(b, r, b.packages[k]) { j := FirstIncompatible(b, r, k + 1); }
  }

  /** At the first other package the run ends. */
  lemma RunMeetsDefect(b: Bundle, w: World, k: nat)
    requires ValidBundle(b) && k < |b.packages| && !Compatible(b, w.registry, b.packages[k])
    requires forall i :: 0 <= i < k ==> Compatible(b, w.registry, b.packages[i])
    ensures var verdict := Publish(b, w, true).verdict;
            if w.budget < PublishCommands(b, w.registry, k) then verdict == Failure(Interrupted)
            else verdict.Failure? && verdict.error != Interrupted
                 && FirstPublishDefect(b, w.registry, k, verdict.error)
  {
    hide PublishOne, RoundCommands, Conclude, PackageReleased;
    if w.budget >= 2 {
      var r, w1 := w.registry, World(w.registry, w.budget - 2);
      RoundsTake(b, w1, k);
      if w1.budget >= RoundCommands(b, r, k) {
        var w2 := World(Progress(b, r, k), w1.budget - RoundCommands(b, r, k));
        NextRound(b, w1, k);
        ProgressStaysCompatible(b, r, k, k);
        RoundFails(b, w2, k);
        SameDefect(b, r, k);
        FailedRoundsStay(b, w1, k + 1, |b.packages|);
      } else {
        FailedRoundsStay(b, w1, k, |b.packages|);
      }
    }
  }

  /** What stands in the way of a package stood there before the run. */
  lemma SameDefect(b: Bundle, r: Registry, k: nat)
    requires ValidBundle(b) && k < |b.packages|
    ensures forall error :: PublishDefect(b, Progress(b, r, k), k, error) ==> PublishDefect(b, r, k, error)
  {
    ProgressKeepsVersions(b, r, k);
    var key := Key(b.packages[k].name, b.version);
    if key in Progress(b, r, k).versions && key !in r.versions {
      var j := ProgressVersionsOrigin(b, r, k, key.name, key.slot);
    }
  }

  /** Behind the last package `latest` is moved, and all is verified. */
  lemma RunConcludes(b: Bundle, w: World)
    requires ValidBundle(b) && forall p :: p in b.packages ==> Compatible(b, w.registry, p)
    ensures var n, verdict := |b.packages|, Publish(b, w, true).verdict;
            if EntryReady(b, w.registry)
            then verdict == if w.budget >= AllCommands(b, w.registry) then Success else Failure(Interrupted)
            else verdict == Failure(if w.budget >= PublishCommands(b, w.registry, n)
                                    then NpmFailure(RELEASE_ENTRY_PACKAGE) else Interrupted)
  {
    hide PublishOne, RoundCommands, PackageReleased, VerifyAll, Released;
    if w.budget >= 2 {
      var n, r, w1 := |b.packages|, w.registry, World(w.registry, w.budget - 2);
      RoundsTake(b, w1, n);
      if w1.budget >= RoundCommands(b, r, n) {
        var w2 := World(Progress(b, r, n), w1.budget - RoundCommands(b, r, n));
        assert Publish(b, w, true) == Conclude(b, w2);
        if EntryReady(b, r) {
          ProgressKnowsEntry(b, r);
          FinalIsAccepted(b, r);
          LatestMoves(b, w2);
          var moved := EnsureDistTag(b, w2, RELEASE_ENTRY_PACKAGE, LATEST_DIST_TAG);
          if moved.verdict.Success? { AcceptedUnlessCut(b, moved.world); }
        } else {
          EntryOutsideBundle(b, r, n);
          KnownOutsideBundle(b, r, n);
          ProgressKeepsVersions(b, r, n);
          ProgressKnows(b, r, n);
        }
      }
    }
  }

  lemma ProgressKnows(b: Bundle, r: Registry, k: nat)
    requires k <= |b.packages|
    ensures Known(r, RELEASE_ENTRY_PACKAGE) ==> Known(Progress(b, r, k), RELEASE_ENTRY_PACKAGE)
  {
    ProgressKeepsVersions(b, r, k);
    if key :| key in r.versions && key.name == RELEASE_ENTRY_PACKAGE {
      assert key in Progress(b, r, k).versions;
    }
  }

  lemma LatestMoves(b: Bundle, w: World)
    requires Known(w.registry, RELEASE_ENTRY_PACKAGE)
    requires Key(RELEASE_ENTRY_PACKAGE, b.version) in w.registry.versions || LatestIs(b, w.registry)
    ensures var Outcome(verdict, w') := EnsureDistTag(b, w, RELEASE_ENTRY_PACKAGE, LATEST_DIST_TAG);
            var cost := if LatestIs(b, w.registry) then 1 else 2;
            var moved := SetTag(b, w.registry, RELEASE_ENTRY_PACKAGE, LATEST_DIST_TAG);
            if w.budget >= cost then verdict == Success && w' == World(moved, w.budget - cost)
            else verdict == Failure(Interrupted)
  {
    if LatestIs(b, w.registry) {
      assert SetTag(b, w.registry, RELEASE_ENTRY_PACKAGE, LATEST_DIST_TAG).tags == w.registry.tags;
    }
  }

  lemma AcceptedUnlessCut(b: Bundle, w: World)
    requires ValidBundle(b) && Released(b, w.registry)
    requires Known(w.registry, RELEASE_ENTRY_PACKAGE) && LatestIs(b, w.registry)
    ensures VerifyAll(b, w).verdict == if w.budget >= 2 * |b.packages| + 1 then Success else Failure(Interrupted)
  {
    hide VerifyAll, PackageReleased;
    VerifyAcceptsExactly(b, w);
    VerifyFailure(b, w);
    forall k, e ensures !FirstVerifyDefect(b, w.registry, k, e) {
      if FirstVerifyDefect(b, w.registry, k, e) { DefectIsUnreleased(b, w.registry, k, e); }
    }
  }

  /** A confirmed run fails with an error exactly when that is what first stands in the way
      in the registry it starts from and it gets so far; it is cut off exactly when it has
      fewer commands than that takes or, where nothing stands in the way, than all take. */
  lemma PublishFailsExactly(b: Bundle, w: World, error: PublishError)
    requires ValidBundle(b)
    ensures Publish(b, w, true).verdict == Failure(error) <==>
            if error == Interrupted
            then
              && (forall k, e :: FirstPublishDefect(b, w.registry, k, e) ==>
                    w.budget < PublishCommands(b, w.registry, k))
              && (Publishable(b, w.registry) ==> w.budget < AllCommands(b, w.registry))
            else
              exists k :: FirstPublishDefect(b, w.registry, k, error) &&
                w.budget >= PublishCommands(b, w.registry, k)
  {
    hide Publish, PublishCommands, AllCommands, EntryReady;
    var n, r := |b.packages|, w.registry;
    var j := FirstIncompatible(b, r, 0);
    if j < n {
      RunMeetsDefect(b, w, j);
      assert b.packages[j] in b.packages;
    } else {
      RunConcludes(b, w);
      assert !EntryReady(b, r) ==> FirstPublishDefect(b, r, n, NpmFailure(RELEASE_ENTRY_PACKAGE));
    }
    forall k, e | FirstPublishDefect(b, r, k, e)
      ensures k == j && forall other :: FirstPublishDefect(b, r, k, other) ==> other == e
    {
    }
  }

  /** A confirmed run succeeds exactly when nothing stands in the way and it has these commands. */
  lemma PublishSucceedsExactly(b: Bundle, w: World)
    requires ValidBundle(b)
    ensures Publish(b, w, true).verdict.Success? <==>
            Publishable(b, w.registry) && w.budget >= AllCommands(b, w.registry)
  {
    hide Publish, AllCommands, PublishCommands, EntryReady;
    var j := FirstIncompatible(b, w.registry, 0);
    if j < |b.packages| {
      RunMeetsDefect(b, w, j);
      assert b.packages[j] in b.packages;
    } else {
      RunConcludes(b, w);
    }
  }
}
