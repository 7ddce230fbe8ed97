/** The registry as npm commands see it, and what a publication run does to it.
    A run may be interrupted between any two commands: `budget` is the number of
    commands it gets to issue. */
module RegistrySpec {
  /** A package together with one of its versions or tags. */
  datatype Key = Key(name: string, slot: string)

  /** Versions are immutable once published; tags move. */
  datatype Registry = Registry(versions: map<Key, string>, tags: map<Key, string>)

  datatype PackedPackage = PackedPackage(name: string, integrity: string)
  datatype Bundle = Bundle(version: string, distTag: string, packages: seq<PackedPackage>)

  const RELEASE_ENTRY_PACKAGE := "@deepseek-ai/dsh"
  const LATEST_DIST_TAG := "latest"
  const INTEGRITY_PREFIX := "sha512-"

  datatype PublishError =
    | Interrupted
    | Cancelled
    | NpmFailure(name: string)
    | NoIntegrity(name: string)
    | DifferentIntegrity(name: string)
    | PackageMissing(name: string)
    | IntegrityMismatch(name: string)
    | TagMismatch(name: string, tag: string)

  datatype World = World(registry: Registry, budget: nat)

  /** How a command or a part of a run ended. */
  datatype Verdict = Success | Failure(error: PublishError)
  datatype Outcome = Outcome(verdict: Verdict, world: World)

  /** What a query read. */
  datatype Reading = Found(text: string) | Absent | Unreadable(error: PublishError)
  datatype Query = Query(reading: Reading, world: World)

  predicate Known(r: Registry, name: string) {
    exists key | key in r.versions :: key.name == name
  }

  // ----- the commands

  function RemoteIntegrity(b: Bundle, w: World, name: string): Query {
    if w.budget == 0 then Query(Unreadable(Interrupted), w) else
    var w' := World(w.registry, w.budget - 1);
    var key := Key(name, b.version);
    if key !in w.registry.versions then Query(Absent, w')
    else if INTEGRITY_PREFIX <= w.registry.versions[key] then Query(Found(w.registry.versions[key]), w')
    else Query(Unreadable(NoIntegrity(name)), w')
  }

  function RemoteDistTag(w: World, name: string, tag: string): Query {
    if w.budget == 0 then Query(Unreadable(Interrupted), w) else
    var w' := World(w.registry, w.budget - 1);
    var key := Key(name, tag);
    if !Known(w.registry, name) then Query(Unreadable(NpmFailure(name)), w')
    else if key in w.registry.tags then Query(Found(w.registry.tags[key]), w')
    else Query(Absent, w')
  }

  /** Publishing a version also sets the tag it is published under. */
  function NpmPublish(b: Bundle, w: World, pkg: PackedPackage): Outcome {
    if w.budget == 0 then Outcome(Failure(Interrupted), w)
    else if Key(pkg.name, b.version) in w.registry.versions then
      Outcome(Failure(NpmFailure(pkg.name)), World(w.registry, w.budget - 1))
    else Outcome(Success, World(AddPackage(b, w.registry, pkg), w.budget - 1))
  }

  function NpmDistTagAdd(b: Bundle, w: World, name: string, tag: string): Outcome {
    if w.budget == 0 then Outcome(Failure(Interrupted), w)
    else if Key(name, b.version) !in w.registry.versions then
      Outcome(Failure(NpmFailure(name)), World(w.registry, w.budget - 1))
    else Outcome(Success, World(SetTag(b, w.registry, name, tag), w.budget - 1))
  }

  function SetTag(b: Bundle, r: Registry, name: string, tag: string): Registry {
    Registry(r.versions, r.tags[Key(name, tag) := b.version])
  }

  /** The package as one completed round of the loop leaves it. */
  function AddPackage(b: Bundle, r: Registry, pkg: PackedPackage): Registry {
    var key := Key(pkg.name, b.version);
    Registry(if key in r.versions then r.versions else r.versions[key := pkg.integrity],
             r.tags[Key(pkg.name, b.distTag) := b.version])
  }

  // ----- the protocol

  function EnsureDistTag(b: Bundle, w: World, name: string, tag: string): Outcome {
    var current := RemoteDistTag(w, name, tag);
    match current.reading
    case Unreadable(error) => Outcome(Failure(error), current.world)
    case Found(version) =>
      if version == b.version then Outcome(Success, current.world) else NpmDistTagAdd(b, current.world, name, tag)
    case Absent => NpmDistTagAdd(b, current.world, name, tag)
  }

  function PublishOne(b: Bundle, w: World, pkg: PackedPackage): Outcome {
    var existing := RemoteIntegrity(b, w, pkg.name);
    match existing.reading
    case Unreadable(error) => Outcome(Failure(error), existing.world)
    case Absent =>
      var published := NpmPublish(b, existing.world, pkg);
      if published.verdict.Failure? then published else EnsureDistTag(b, published.world, pkg.name, b.distTag)
    case Found(integrity) =>
      if integrity != pkg.integrity then Outcome(Failure(DifferentIntegrity(pkg.name)), existing.world)
      else EnsureDistTag(b, existing.world, pkg.name, b.distTag)
  }

  /** The first `k` rounds of the loop. */
  function PublishRounds(b: Bundle, w: World, k: nat): Outcome
    requires k <= |b.packages|
  {
    if k == 0 then Outcome(Success, w) else
    var earlier := PublishRounds(b, w, k - 1);
    if earlier.verdict.Failure? then earlier else PublishOne(b, earlier.world, b.packages[k - 1])
  }

  function VerifyTag(b: Bundle, w: World, name: string, tag: string): Outcome {
    var current := RemoteDistTag(w, name, tag);
    match current.reading
    case Unreadable(error) => Outcome(Failure(error), current.world)
    case Found(version) =>
      Outcome(if version == b.version then Success else Failure(TagMismatch(name, tag)), current.world)
    case Absent => Outcome(Failure(TagMismatch(name, tag)), current.world)
  }

  function VerifyOne(b: Bundle, w: World, pkg: PackedPackage): Outcome {
    var existing := RemoteIntegrity(b, w, pkg.name);
    match existing.reading
    case Unreadable(error) => Outcome(Failure(error), existing.world)
    case Absent => Outcome(Failure(PackageMissing(pkg.name)), existing.world)
    case Found(integrity) =>
      if integrity != pkg.integrity then Outcome(Failure(IntegrityMismatch(pkg.name)), existing.world)
      else VerifyTag(b, existing.world, pkg.name, b.distTag)
  }

  function VerifyRounds(b: Bundle, w: World, k: nat): Outcome
    requires k <= |b.packages|
  {
    if k == 0 then Outcome(Success, w) else
    var earlier := VerifyRounds(b, w, k - 1);
    if earlier.verdict.Failure? then earlier else VerifyOne(b, earlier.world, b.packages[k - 1])
  }

  function VerifyAll(b: Bundle, w: World): Outcome {
    var checked := VerifyRounds(b, w, |b.packages|);
    if checked.verdict.Failure? then checked else VerifyTag(b, checked.world, RELEASE_ENTRY_PACKAGE, LATEST_DIST_TAG)
  }

  /** Ping and whoami: commands that change nothing. */
  function Preflight(w: World, commands: nat): Outcome {
    if w.budget < commands then Outcome(Failure(Interrupted), World(w.registry, 0))
    else Outcome(Success, World(w.registry, w.budget - commands))
  }

  /** What follows the last round: move `latest`, then check everything. */
  function Conclude(b: Bundle, w: World): Outcome {
    var moved := EnsureDistTag(b, w, RELEASE_ENTRY_PACKAGE, LATEST_DIST_TAG);
    if moved.verdict.Failure? then moved else VerifyAll(b, moved.world)
  }

  function Publish(b: Bundle, w: World, confirmed: bool): Outcome {
    var ready := Preflight(w, 2);
    if ready.verdict.Failure? then ready
    else if !confirmed then Outcome(Failure(Cancelled), ready.world) else
    var published := PublishRounds(b, ready.world, |b.packages|);
    if published.verdict.Failure? then published else Conclude(b, published.world)
  }

  function Verify(b: Bundle, w: World): Outcome {
    var ready := Preflight(w, 1);
    if ready.verdict.Failure? then ready else VerifyAll(b, ready.world)
  }
}
