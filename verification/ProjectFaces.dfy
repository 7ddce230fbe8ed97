/** References between Host and Client projects. */
module ProjectFaces {
  import opened Sorting
  import opened Text
  import opened Wrappers

  // Which configs the two aggregates reach, whose face a config has, and which references
  // enter the wrong half of a split package.

  datatype Face = Host | Client

  /** A reference as written, and the config path it leads to. */
  datatype Reference = Reference(written: string, target: string)

  /** `base` is the config path of a relative `extends`. */
  datatype Config = Config(references: seq<Reference>, base: Option<string>)

  /** The configs that exist, by absolute path, and the packages that have both halves. */
  datatype Repo = Repo(root: string, configs: map<string, Config>, splitPackages: seq<string>)

  // ----- paths

  /** The directory itself, or anything below it. */
  predicate Contains(dir: string, path: string) {
    path == dir || dir + "/" <= path
  }

  predicate HasName(path: string, name: string) {
    path == name || (|path| > |name| && path[|path| - |name| - 1..] == "/" + name)
  }

  /** By the segments of the paths: those of the directory come first, and the name is the last. */
  lemma ContainsBySegments(dir: string, path: string)
    ensures Contains(dir, path) <==> Split(dir, '/') <= Split(path, '/')
  {
    hide Split;
    var outer, inner := Split(dir, '/'), Split(path, '/');
    if Contains(dir, path) && path != dir {
      var rest := path[|dir| + 1..];
      assert path == dir + "/" + rest;
      SplitBoth(dir, '/', rest);
    }
    if outer <= inner {
      SplitJoins(dir, '/');
      SplitJoins(path, '/');
      var rest := inner[|outer|..];
      assert inner == outer + rest;
      if rest == [] {
        assert inner == outer;
      } else {
        JoinBoth(outer, rest, "/");
        assert dir + "/" <= path;
      }
    }
  }

  function LastSegment(path: string): string {
    Split(path, '/')[|Split(path, '/')| - 1]
  }

  lemma NameIsLastSegment(path: string, name: string)
    requires '/' !in name
    ensures HasName(path, name) <==> LastSegment(path) == name
  {
    hide Split;
    var segments := Split(path, '/');
    var before, last := segments[..|segments| - 1], segments[|segments| - 1];
    assert segments == before + [last];
    SplitJoins(path, '/');
    OneSegment(name);
    if HasName(path, name) && path != name {
      var dir := path[..|path| - |name| - 1];
      assert path == dir + "/" + name;
      SplitBoth(dir, '/', name);
    }
    if last == name && before != [] {
      JoinBoth(before, [last], "/");
      assert path == Join(before, "/") + "/" + last;
      assert path[|path| - |name| - 1..] == "/" + name;
    }
  }

  lemma {:induction false} OneSegment(name: string)
    requires '/' !in name
    ensures Split(name, '/') == [name]
  {
    if name != "" {
      OneSegment(name[1..]);
      assert [name[0]] + name[1..] == name && [name[1..]][1..] == [];
    }
  }

  function FaceConfig(dir: string, face: Face): string {
    dir + (if face.Host? then "/tsconfig.host.json" else "/tsconfig.client.json")
  }

  // ----- split packages, the longest path first

  function LongestFirst(): (string, string) -> int {
    (left: string, right: string) => |right| - |left|
  }

  function FirstContaining(roots: seq<string>, path: string): Option<string> {
    if roots == [] then None else if Contains(roots[0], path) then Some(roots[0]) else FirstContaining(roots[1..], path)
  }

  /** The innermost split package around a path. */
  ghost predicate IsInnermost(packages: seq<string>, path: string, root: Option<string>) {
    match root
    case None => forall p :: p in packages ==> !Contains(p, path)
    case Some(r) =>
      r in packages && Contains(r, path) && forall p :: p in packages && Contains(p, path) ==> Contains(p, r)
  }

  ghost predicate LongestFirstList(packages: seq<string>, roots: seq<string>) {
    && (forall p :: p in roots <==> p in packages)
    && (forall i, j :: 0 <= i < j < |roots| ==> |roots[i]| >= |roots[j]|)
  }

  /** Directories around one path are around each other, the shorter around the longer. */
  lemma ContainingNest(a: string, b: string, path: string)
    requires Contains(a, path) && Contains(b, path) && |a| <= |b|
    ensures Contains(a, b)
  {
    ContainsPrefix(a, path);
    ContainsPrefix(b, path);
    if |a| == |b| {
      assert a == path[..|a|] == b;
    } else {
      assert path != a && (a + "/")[..|a| + 1] == path[..|a| + 1] == b[..|a| + 1];
    }
  }

  lemma ContainsPrefix(dir: string, path: string)
    requires Contains(dir, path)
    ensures dir <= path && path[..|dir|] == dir
  {
    if path != dir { assert path[..|dir|] == (dir + "/")[..|dir|]; }
  }

  lemma {:induction false} FirstIsInnermost(roots: seq<string>, path: string)
    requires forall i, j :: 0 <= i < j < |roots| ==> |roots[i]| >= |roots[j]|
    ensures IsInnermost(roots, path, FirstContaining(roots, path))
  {
    if roots != [] {
      FirstIsInnermost(roots[1..], path);
      if Contains(roots[0], path) {
        forall p | p in roots && Contains(p, path) ensures Contains(p, roots[0]) {
          var i :| 0 <= i < |roots| && roots[i] == p;
          assert |p| <= |roots[0]|;
          ContainingNest(p, roots[0], path);
        }
      }
    }
  }

  /** Searching the packages longest first finds the innermost one. */
  lemma LongestFirstIsInnermost(packages: seq<string>, roots: seq<string>, path: string)
    requires LongestFirstList(packages, roots)
    ensures IsInnermost(packages, path, FirstContaining(roots, path))
  {
    FirstIsInnermost(roots, path);
  }

  lemma InnermostUnique(packages: seq<string>, path: string, a: Option<string>, b: Option<string>)
    requires IsInnermost(packages, path, a) && IsInnermost(packages, path, b)
    ensures a == b
  {
    if a.Some? && b.Some? {
      ContainsPrefix(a.value, b.value);
      ContainsPrefix(b.value, a.value);
    }
  }

  method SplitProjectRoots(packages: seq<string>) returns (roots: seq<string>)
    ensures LongestFirstList(packages, roots)
  {
    var sorted, order := StableSort(packages, LongestFirst());
    forall i, j | 0 <= i < j < |sorted| ensures |sorted[i]| >= |sorted[j]| {
      assert LongestFirst()(sorted[i], sorted[j]) <= 0;
    }
    roots := sorted;
  }

  // ----- the face of a config

  /** The face that the path alone gives. */
  function NamedFace(repo: Repo, path: string): Option<Face> {
    if HasName(path, "tsconfig.host.json") then Some(Host)
    else if HasName(path, "tsconfig.client.json") then Some(Client)
    else if path == repo.root + "/tsconfig.base.json" then Some(Host)
    else if path == repo.root + "/tsconfig.base.client.json" then Some(Client)
    else None
  }

  lemma LastSegmentBehind(dir: string, name: string)
    requires '/' !in name
    ensures LastSegment(dir + ("/" + name)) == name
  {
    hide Split;
    assert dir + ("/" + name) == dir + ['/'] + name;
    SplitBoth(dir, '/', name);
    OneSegment(name);
  }

  /** By its last segment, or as the root's base config of one face. */
  lemma NamedFaceIff(repo: Repo, path: string)
    ensures NamedFace(repo, path) == Some(Host) <==>
            LastSegment(path) == "tsconfig.host.json" || path == repo.root + "/tsconfig.base.json"
    ensures NamedFace(repo, path) == Some(Client) <==>
            LastSegment(path) == "tsconfig.client.json" || path == repo.root + "/tsconfig.base.client.json"
  {
    hide Split, HasName, LastSegment;
    NamedByLast(path);
    BaseNames();
    HostBase(repo.root);
    ClientBase(repo.root);
    BasesDiffer(repo.root);
  }

  lemma HostBase(root: string)
    ensures LastSegment(root + "/tsconfig.base.json") !in {"tsconfig.host.json", "tsconfig.client.json"}
  {
    hide LastSegment;
    assert "/tsconfig.base.json" == "/" + "tsconfig.base.json";
    LastSegmentBehind(root, "tsconfig.base.json");
    BaseNames();
  }

  lemma ClientBase(root: string)
    ensures LastSegment(root + "/tsconfig.base.client.json") !in {"tsconfig.host.json", "tsconfig.client.json"}
  {
    hide LastSegment;
    var name := "tsconfig.base.client.json";
    assert "/tsconfig.base.client.json" == "/" + name;
    LastSegmentBehind(root, name);
    LongerNames(name);
  }

  lemma LongerNames(name: string)
    requires |name| == 25
    ensures name !in {"tsconfig.host.json", "tsconfig.client.json"}
  {
    assert |"tsconfig.host.json"| == 18 && |"tsconfig.client.json"| == 20;
  }

  lemma BasesDiffer(root: string)
    ensures root + "/tsconfig.base.client.json" != root + "/tsconfig.base.json"
  {
    assert |root + "/tsconfig.base.client.json"| != |root + "/tsconfig.base.json"|;
  }

  lemma NamedByLast(path: string)
    ensures HasName(path, "tsconfig.host.json") <==> LastSegment(path) == "tsconfig.host.json"
    ensures HasName(path, "tsconfig.client.json") <==> LastSegment(path) == "tsconfig.client.json"
  {
    hide Split, HasName;
    NameIsLastSegment(path, "tsconfig.host.json");
    NameIsLastSegment(path, "tsconfig.client.json");
  }

  lemma BaseNames()
    ensures "tsconfig.base.json" != "tsconfig.client.json" && "tsconfig.base.json" != "tsconfig.host.json"
    ensures "tsconfig.host.json" != "tsconfig.client.json"
  {
    assert "tsconfig.base.json"[9] == 'b' && "tsconfig.client.json"[9] == 'c' && "tsconfig.host.json"[9] == 'h';
  }

  function Parent(repo: Repo, path: string): Option<string> {
    if path in repo.configs && repo.configs[path].base.Some? && repo.configs[path].base.value in repo.configs
    then repo.configs[path].base else None
  }

  /** Follow `extends` until a path names a face; a cycle names none. */
  function ProjectFace(repo: Repo, path: string, seen: set<string>): Option<Face>
    requires path in repo.configs
    decreases repo.configs.Keys - seen
  {
    if NamedFace(repo, path).Some? then NamedFace(repo, path)
    else if path in seen then None
    else
      var parent := Parent(repo, path);
      assert path in repo.configs.Keys - seen;
      if parent.None? then None else ProjectFace(repo, parent.value, seen + {path})
  }

  /** The config `n` steps up, when there is one. */
  function Ancestor(repo: Repo, path: string, n: nat): Option<string> {
    if n == 0 then Some(path)
    else
      var before := Ancestor(repo, path, n - 1);
      if before.None? then None else Parent(repo, before.value)
  }

  /** Both exist, and the one extends the other. */
  ghost predicate IsBase(repo: Repo, path: string, base: string) {
    path in repo.configs && repo.configs[path].base == Some(base) && base in repo.configs
  }

  ghost predicate IsAncestry(repo: Repo, path: string, n: nat, ancestor: string, chain: seq<string>) {
    && |chain| == n + 1 && chain[0] == path && chain[n] == ancestor
    && forall i :: 0 <= i < n ==> IsBase(repo, chain[i], chain[i + 1])
  }

  lemma ParentIsBase(repo: Repo, path: string, base: string)
    ensures Parent(repo, path) == Some(base) <==> IsBase(repo, path, base)
  {
  }

  /** The config `n` steps up is the one that `n` extensions in a row lead to. */
  lemma {:induction false} AncestorIff(repo: Repo, path: string, n: nat, ancestor: string)
    ensures Ancestor(repo, path, n) == Some(ancestor) <==> exists chain :: IsAncestry(repo, path, n, ancestor, chain)
  {
    hide Parent, IsBase;
    if n == 0 {
      assert path == ancestor ==> IsAncestry(repo, path, 0, ancestor, [path]);
    } else {
      if Ancestor(repo, path, n) == Some(ancestor) {
        var before := Ancestor(repo, path, n - 1).value;
        AncestorIff(repo, path, n - 1, before);
        ParentIsBase(repo, before, ancestor);
        var chain :| IsAncestry(repo, path, n - 1, before, chain);
        assert IsAncestry(repo, path, n, ancestor, chain + [ancestor]);
      }
      if chain :| IsAncestry(repo, path, n, ancestor, chain) {
        AncestorIff(repo, path, n - 1, chain[n - 1]);
        assert IsBase(repo, chain[n - 1], chain[n - 1 + 1]);
        ParentIsBase(repo, chain[n - 1], ancestor);
        assert IsAncestry(repo, path, n - 1, chain[n - 1], chain[..n]);
      }
    }
  }

  /** The nearest config along `extends`, the path itself included, that names a face. */
  ghost predicate InheritsFace(repo: Repo, path: string, n: nat, face: Face) {
    NamedAt(repo, path, n) == Some(face) && forall m: nat :: m < n ==> NamedAt(repo, path, m).None?
  }

  ghost predicate HasFace(repo: Repo, path: string, face: Face) {
    exists n: nat :: InheritsFace(repo, path, n, face)
  }

  lemma FaceAt(repo: Repo, path: string, n: nat, face: Face)
    requires InheritsFace(repo, path, n, face)
    ensures HasFace(repo, path, face)
  {
  }

  function NamedAt(repo: Repo, path: string, n: nat): Option<Face> {
    var config := Ancestor(repo, path, n);
    if config.Some? then NamedFace(repo, config.value) else None
  }

  lemma {:induction false} AncestorBelow(repo: Repo, path: string, n: nat, m: nat)
    requires m <= n && Ancestor(repo, path, n).Some?
    ensures Ancestor(repo, path, m).Some?
  {
    if m < n { AncestorBelow(repo, path, n - 1, m); }
  }

  lemma {:induction false} AncestorOfParent(repo: Repo, path: string, n: nat)
    requires Parent(repo, path).Some?
    ensures Ancestor(repo, path, n + 1) == Ancestor(repo, Parent(repo, path).value, n)
  {
    if n > 0 {
      AncestorOfParent(repo, path, n - 1);
    } else {
      assert Ancestor(repo, path, 1) == Parent(repo, path);
    }
  }

  /** None of these names a face, and `extends` leads from them only to one of these or to `path`. */
  ghost predicate Nameless(repo: Repo, seen: set<string>, path: string) {
    forall p :: p in seen ==>
      NamedFace(repo, p).None?
      && (Parent(repo, p).None? || Parent(repo, p).value in seen || Parent(repo, p).value == path)
  }

  lemma {:induction false} NamelessForever(repo: Repo, seen: set<string>, path: string, n: nat)
    requires Nameless(repo, seen, path) && path in seen
    ensures Ancestor(repo, path, n).Some? ==> Ancestor(repo, path, n).value in seen
  {
    if n > 0 { NamelessForever(repo, seen, path, n - 1); }
  }

  lemma {:induction false} FaceIsInherited(repo: Repo, path: string, seen: set<string>)
    requires path in repo.configs && Nameless(repo, seen, path)
    ensures match ProjectFace(repo, path, seen)
            case Some(face) => HasFace(repo, path, face)
            case None => forall face :: !HasFace(repo, path, face)
    decreases repo.configs.Keys - seen
  {
    hide NamedFace;
    var named := NamedFace(repo, path);
    if named.Some? {
      FaceAt(repo, path, 0, named.value);
    } else if path in seen {
      forall n: nat, face ensures !InheritsFace(repo, path, n, face) { NamelessForever(repo, seen, path, n); }
    } else {
      var parent := Parent(repo, path);
      assert path in repo.configs.Keys - seen;
      if parent.None? {
        forall n: nat, face ensures !InheritsFace(repo, path, n, face) {
          if n > 0 && Ancestor(repo, path, n).Some? { AncestorBelow(repo, path, n, 1); NoGrandparent(repo, path); }
        }
      } else {
        FaceIsInherited(repo, parent.value, seen + {path});
        assert NamedAt(repo, path, 0) == named;
        forall n: nat, face | InheritsFace(repo, path, n, face) ensures HasFace(repo, parent.value, face) {
          InheritedFromParent(repo, path, n - 1, face);
          FaceAt(repo, parent.value, n - 1, face);
        }
        var found := ProjectFace(repo, parent.value, seen + {path});
        assert ProjectFace(repo, path, seen) == found;
        if found.Some? {
          var n: nat :| InheritsFace(repo, parent.value, n, found.value);
          InheritedFromParent(repo, path, n, found.value);
          FaceAt(repo, path, n + 1, found.value);
        }
      }
    }
  }

  lemma NoGrandparent(repo: Repo, path: string)
    requires Parent(repo, path).None?
    ensures Ancestor(repo, path, 1).None?
  {
    assert Ancestor(repo, path, 0) == Some(path);
  }

  lemma InheritedFromParent(repo: Repo, path: string, n: nat, face: Face)
    requires Parent(repo, path).Some? && NamedFace(repo, path).None?
    ensures InheritsFace(repo, path, n + 1, face) <==> InheritsFace(repo, Parent(repo, path).value, n, face)
  {
    hide NamedFace;
    var parent := Parent(repo, path).value;
    forall m: nat | m <= n ensures NamedAt(repo, path, m + 1) == NamedAt(repo, parent, m) {
      AncestorOfParent(repo, path, m);
    }
    assert NamedAt(repo, path, 0) == NamedFace(repo, path);
    if InheritsFace(repo, parent, n, face) {
      forall m: nat | 0 < m < n + 1 ensures NamedAt(repo, path, m).None? {
        assert NamedAt(repo, path, m - 1 + 1) == NamedAt(repo, parent, m - 1);
      }
    }
    if InheritsFace(repo, path, n + 1, face) {
      forall m: nat | m < n ensures NamedAt(repo, parent, m).None? {
        assert NamedAt(repo, path, m + 1) == NamedAt(repo, parent, m);
      }
    }
  }

  /** The face found is that of the nearest config along `extends` that names one. */
  lemma FaceIsNearest(repo: Repo, path: string)
    requires path in repo.configs
    ensures match ProjectFace(repo, path, {})
            case Some(face) => HasFace(repo, path, face)
            case None => forall face :: !HasFace(repo, path, face)
  {
    FaceIsInherited(repo, path, {});
  }

  // ----- references

  /** A reference that enters a split package where it must not; `expected` is the config
      it should name, when the referring config has a face. */
  datatype Violation = Violation(config: string, written: string, splitRoot: string, expected: Option<string>)

  /** What is wrong with one reference of a config, if anything. */
  function Judge(repo: Repo, roots: seq<string>, config: string, reference: Reference): Option<Violation>
    requires config in repo.configs
  {
    var splitRoot := FirstContaining(roots, reference.target);
    if splitRoot.None? then None
    else
      var face := ProjectFace(repo, config, {});
      if face.None? then Some(Violation(config, reference.written, splitRoot.value, None))
      else
        var expected := FaceConfig(splitRoot.value, face.value);
        if reference.target == expected then None
        else Some(Violation(config, reference.written, splitRoot.value, Some(expected)))
  }

  /** In terms of the packages and the face inherited: a reference conforms when it stays
      outside split packages, or names the half of its innermost split package that has
      the face of the referring config. */
  ghost predicate Conforms(repo: Repo, config: string, reference: Reference) {
    || IsInnermost(repo.splitPackages, reference.target, None)
    || exists r, face ::
         && IsInnermost(repo.splitPackages, reference.target, Some(r)) && HasFace(repo, config, face)
         && reference.target == FaceConfig(r, face)
  }

  /** The report of a reference: its innermost split package, and the half of it that has
      the face of the referring config, if that has one. */
  ghost predicate Describes(repo: Repo, reference: Reference, v: Violation) {
    && v.written == reference.written
    && IsInnermost(repo.splitPackages, reference.target, Some(v.splitRoot))
    && match v.expected
       case None => forall face :: !HasFace(repo, v.config, face)
       case Some(e) => exists face :: HasFace(repo, v.config, face) && e == FaceConfig(v.splitRoot, face)
  }

  lemma OneFace(repo: Repo, path: string, a: Face, b: Face)
    requires HasFace(repo, path, a) && HasFace(repo, path, b)
    ensures a == b
  {
    hide NamedAt;
    var m: nat :| InheritsFace(repo, path, m, a);
    var n: nat :| InheritsFace(repo, path, n, b);
    assert m < n ==> NamedAt(repo, path, m).None?;
    assert n < m ==> NamedAt(repo, path, n).None?;
  }

  lemma JudgedByConformity(repo: Repo, roots: seq<string>, config: string, reference: Reference)
    requires config in repo.configs && LongestFirstList(repo.splitPackages, roots)
    ensures Judge(repo, roots, config, reference).None? <==> Conforms(repo, config, reference)
  {
    hide ProjectFace, FirstContaining, IsInnermost, HasFace, FaceConfig;
    var target := reference.target;
    var splitRoot := FirstContaining(roots, target);
    LongestFirstIsInnermost(repo.splitPackages, roots, target);
    FaceIsNearest(repo, config);
    var face := ProjectFace(repo, config, {});
    if IsInnermost(repo.splitPackages, target, None) { InnermostUnique(repo.splitPackages, target, None, splitRoot); }
    forall r, f | IsInnermost(repo.splitPackages, target, Some(r)) && HasFace(repo, config, f)
      ensures Some(r) == splitRoot && face == Some(f)
    {
      InnermostUnique(repo.splitPackages, target, Some(r), splitRoot);
      if face.Some? { OneFace(repo, config, f, face.value); }
    }
  }

  lemma JudgeDescribes(repo: Repo, roots: seq<string>, config: string, reference: Reference, v: Violation)
    requires config in repo.configs && LongestFirstList(repo.splitPackages, roots)
    ensures Judge(repo, roots, config, reference) == Some(v) <==>
              v.config == config && !Conforms(repo, config, reference) && Describes(repo, reference, v)
  {
    hide ProjectFace, FirstContaining, IsInnermost, HasFace, FaceConfig, Conforms;
    var target := reference.target;
    var splitRoot := FirstContaining(roots, target);
    JudgedByConformity(repo, roots, config, reference);
    LongestFirstIsInnermost(repo.splitPackages, roots, target);
    FaceIsNearest(repo, config);
    var face := ProjectFace(repo, config, {});
    if v.config == config && Describes(repo, reference, v) {
      InnermostUnique(repo.splitPackages, target, Some(v.splitRoot), splitRoot);
      if v.expected.Some? {
        var f :| HasFace(repo, v.config, f) && v.expected.value == FaceConfig(v.splitRoot, f);
        if face.Some? { OneFace(repo, config, f, face.value); }
      }
    }
  }

  // ----- the traversal

  function Starts(repo: Repo): seq<string> {
    [repo.root + "/tsconfig.host.json", repo.root + "/tsconfig.client.json"]
  }

  predicate IsAggregate(repo: Repo, path: string) {
    path == FaceConfig(repo.root, Host) || path == FaceConfig(repo.root, Client)
  }

  ghost predicate Step(repo: Repo, a: string, b: string) {
    && a in repo.configs && b in repo.configs
    && exists r :: r in repo.configs[a].references && r.target == b && Conforms(repo, a, r)
  }

  /** A chain of conforming references from one of the two aggregates, all configs existing. */
  ghost predicate IsRoute(repo: Repo, route: seq<string>) {
    && route != [] && IsAggregate(repo, route[0]) && route[0] in repo.configs
    && forall i :: 0 <= i < |route| - 1 ==> Step(repo, route[i], route[i + 1])
  }

  ghost predicate Reached(repo: Repo, config: string) {
    exists route :: IsRoute(repo, route) && route[|route| - 1] == config
  }

  lemma StartReached(repo: Repo, config: string)
    requires config in Starts(repo) && config in repo.configs
    ensures Reached(repo, config)
  {
    assert IsRoute(repo, [config]);
  }

  lemma StepReached(repo: Repo, a: string, b: string)
    requires Reached(repo, a) && Step(repo, a, b)
    ensures Reached(repo, b)
  {
    var route :| IsRoute(repo, route) && route[|route| - 1] == a;
    assert IsRoute(repo, route + [b]);
  }

  /** A set with the aggregates in it that conforming references do not leave. */
  lemma {:induction false} RouteStaysIn(repo: Repo, visited: set<string>, route: seq<string>)
    requires IsRoute(repo, route)
    requires forall s :: s in Starts(repo) && s in repo.configs ==> s in visited
    requires forall a, b :: a in visited && Step(repo, a, b) ==> b in visited
    ensures route[|route| - 1] in visited
    decreases |route|
  {
    if |route| > 1 {
      var init := route[..|route| - 1];
      forall i | 0 <= i < |init| - 1 ensures Step(repo, init[i], init[i + 1]) {
        assert Step(repo, route[i], route[i + 1]);
      }
      RouteStaysIn(repo, visited, init);
      assert Step(repo, route[|route| - 2], route[|route| - 2 + 1]);
    }
  }

  /** All violations of one config, in the order of its references. */
  function ViolationsOf(repo: Repo, roots: seq<string>, config: string, references: seq<Reference>): seq<Violation>
    requires config in repo.configs
  {
    if references == [] then []
    else
      var wrong := Judge(repo, roots, config, references[0]);
      (if wrong.Some? then [wrong.value] else []) + ViolationsOf(repo, roots, config, references[1..])
  }

  /** The targets of its conforming references. */
  function TargetsOf(repo: Repo, roots: seq<string>, config: string, references: seq<Reference>): seq<string>
    requires config in repo.configs
  {
    if references == [] then []
    else
      var first := if Judge(repo, roots, config, references[0]).None? then [references[0].target] else [];
      first + TargetsOf(repo, roots, config, references[1..])
  }

  lemma TargetsAreConforming(repo: Repo, roots: seq<string>, config: string, references: seq<Reference>)
    requires config in repo.configs && LongestFirstList(repo.splitPackages, roots)
    ensures forall t :: t in TargetsOf(repo, roots, config, references) <==>
        exists r :: r in references && r.target == t && Conforms(repo, config, r)
  {
    hide Judge, Conforms;
    if references != [] {
      TargetsAreConforming(repo, roots, config, references[1..]);
      JudgedByConformity(repo, roots, config, references[0]);
      assert forall r :: r in references <==> r == references[0] || r in references[1..];
    }
  }

  function AllViolations(repo: Repo, roots: seq<string>, configs: seq<string>): seq<Violation>
    requires forall c :: c in configs ==> c in repo.configs
  {
    if configs == [] then []
    else
      var init, last := configs[..|configs| - 1], configs[|configs| - 1];
      assert last in configs && forall c :: c in init ==> c in configs;
      AllViolations(repo, roots, init) + ViolationsOf(repo, roots, last, repo.configs[last].references)
  }

  /** Every reached config once, in some order. */
  ghost predicate ListsReached(repo: Repo, configs: seq<string>) {
    && (forall i, j :: 0 <= i < j < |configs| ==> configs[i] != configs[j])
    && (forall c :: c in configs <==> Reached(repo, c))
  }

  ghost predicate Traversing(repo: Repo, pending: seq<string>, visited: set<string>, order: seq<string>) {
    && (forall c :: c in order <==> c in visited)
    && (forall i, j :: 0 <= i < j < |order| ==> order[i] != order[j])
    && (forall c :: c in visited ==> c in repo.configs && Reached(repo, c))
    && (forall c :: c in pending && c in repo.configs ==> Reached(repo, c))
    && (forall s :: s in Starts(repo) && s in repo.configs ==> s in visited || s in pending)
    && (forall a, b :: a in visited && Step(repo, a, b) ==> b in visited || b in pending)
  }

  lemma TraversalStarts(repo: Repo)
    ensures Traversing(repo, Starts(repo), {}, [])
  {
    forall c | c in Starts(repo) && c in repo.configs ensures Reached(repo, c) { StartReached(repo, c); }
  }

  /** The popped config was visited before, or does not exist. */
  lemma Popped(repo: Repo, pending: seq<string>, visited: set<string>, order: seq<string>)
    requires Traversing(repo, pending, visited, order) && pending != []
    requires pending[|pending| - 1] in visited || pending[|pending| - 1] !in repo.configs
    ensures Traversing(repo, pending[..|pending| - 1], visited, order)
  {
    hide Step, Reached;
    LastApart(pending);
    forall a, b | a in visited && Step(repo, a, b) ensures b in visited || b in pending[..|pending| - 1] {
      StepExists(repo, a, b);
    }
  }

  lemma LastApart(pending: seq<string>)
    requires pending != []
    ensures forall c :: c in pending <==> c == pending[|pending| - 1] || c in pending[..|pending| - 1]
  {
    assert pending == pending[..|pending| - 1] + [pending[|pending| - 1]];
  }

  lemma StepExists(repo: Repo, a: string, b: string)
    requires Step(repo, a, b)
    ensures b in repo.configs
  {
  }

  /** A new config is visited and its conforming references wait. */
  lemma Visited(repo: Repo, roots: seq<string>, pending: seq<string>, visited: set<string>, order: seq<string>)
    requires Traversing(repo, pending, visited, order) && pending != [] && LongestFirstList(repo.splitPackages, roots)
    requires var c := pending[|pending| - 1]; c !in visited && c in repo.configs
    ensures var c := pending[|pending| - 1];
            Traversing(repo, pending[..|pending| - 1] + TargetsOf(repo, roots, c, repo.configs[c].references),
              visited + {c}, order + [c])
  {
    hide Reached, Conforms, Judge;
    var c, rest := pending[|pending| - 1], pending[..|pending| - 1];
    var targets := TargetsOf(repo, roots, c, repo.configs[c].references);
    LastApart(pending);
    TargetsAreConforming(repo, roots, c, repo.configs[c].references);
    forall t | t in targets && t in repo.configs ensures Reached(repo, t) {
      assert Step(repo, c, t);
      StepReached(repo, c, t);
    }
    assert forall t :: t in rest + targets <==> t in rest || t in targets;
    assert forall t :: t in order + [c] <==> t in order || t == c;
    forall b | Step(repo, c, b) ensures b in targets {}
  }

  lemma TraversalEnds(repo: Repo, visited: set<string>, order: seq<string>)
    requires Traversing(repo, [], visited, order)
    ensures ListsReached(repo, order)
  {
    hide Step;
    forall c | Reached(repo, c) ensures c in visited {
      var route :| IsRoute(repo, route) && route[|route| - 1] == c;
      RouteStaysIn(repo, visited, route);
    }
  }

  /** The references of one config: the conforming ones wait, the others are reported. */
  method VisitReferences(repo: Repo, roots: seq<string>, config: string, pending: seq<string>,
        violations: seq<Violation>)
    returns (pending': seq<string>, violations': seq<Violation>)
    requires config in repo.configs
    ensures pending' == pending + TargetsOf(repo, roots, config, repo.configs[config].references)
    ensures violations' == violations + ViolationsOf(repo, roots, config, repo.configs[config].references)
  {
    hide FirstContaining, ProjectFace, FaceConfig;
    var references := repo.configs[config].references;
    var face := ProjectFace(repo, config, {});
    pending', violations' := pending, violations;
    assert references[0..] == references;
    for k := 0 to |references|
      invariant pending + TargetsOf(repo, roots, config, references)
          == pending' + TargetsOf(repo, roots, config, references[k..])
      invariant violations + ViolationsOf(repo, roots, config, references)
          == violations' + ViolationsOf(repo, roots, config, references[k..])
    {
      var reference := references[k];
      NextReference(repo, roots, config, references, k, pending', violations');
      var splitRoot := FirstContaining(roots, reference.target);
      if splitRoot.Some? && face.None? {
        violations' := violations' + [Violation(config, reference.written, splitRoot.value, None)];
      } else if splitRoot.Some? && reference.target != FaceConfig(splitRoot.value, face.value) {
        violations' := violations'
          + [Violation(config, reference.written, splitRoot.value, Some(FaceConfig(splitRoot.value, face.value)))];
      } else {
        pending' := pending' + [reference.target];
      }
    }
  }

  lemma NextReference(repo: Repo, roots: seq<string>, config: string, references: seq<Reference>, k: nat,
        pending: seq<string>, violations: seq<Violation>)
    requires config in repo.configs && k < |references|
    ensures var wrong := Judge(repo, roots, config, references[k]);
            && pending + TargetsOf(repo, roots, config, references[k..])
               == pending + (if wrong.None? then [references[k].target] else [])
                 + TargetsOf(repo, roots, config, references[k + 1..])
            && violations + ViolationsOf(repo, roots, config, references[k..])
               == violations + (if wrong.Some? then [wrong.value] else [])
                 + ViolationsOf(repo, roots, config, references[k + 1..])
  {
    hide Judge;
    assert references[k..][0] == references[k] && references[k..][1..] == references[k + 1..];
  }

  /** A reached config has a reference that does not conform, and this is its report. */
  ghost predicate Reported(repo: Repo, v: Violation) {
    && Reached(repo, v.config) && v.config in repo.configs
    && exists r :: r in repo.configs[v.config].references && !Conforms(repo, v.config, r) && Describes(repo, r, v)
  }

  /** The traversal from the two aggregates: it ends on cyclic graphs too, and reports
      exactly the references of reached configs that do not conform, config by config in
      the order visited, which is a ghost, each config once. The report is unsorted. */
  method CollectViolations(repo: Repo)
    returns (violations: seq<Violation>, ghost roots: seq<string>, ghost order: seq<string>)
    ensures forall v :: v in violations <==> Reported(repo, v)
    ensures LongestFirstList(repo.splitPackages, roots) && ListsReached(repo, order)
    ensures (forall c :: c in order ==> c in repo.configs) && violations == AllViolations(repo, roots, order)
  {
    hide Traversing, TargetsOf, ViolationsOf, LongestFirstList, ListsReached, Reported;
    var splitRoots := SplitProjectRoots(repo.splitPackages);
    roots := splitRoots;
    var pending := Starts(repo);
    var visited: set<string> := {};
    violations, order := [], [];
    TraversalStarts(repo);
    while pending != []
      invariant Traversing(repo, pending, visited, order)
      invariant visited <= repo.configs.Keys && forall c :: c in order ==> c in repo.configs
      invariant violations == AllViolations(repo, splitRoots, order)
      decreases repo.configs.Keys - visited, |pending|
    {
      var configPath := pending[|pending| - 1];
      var rest := pending[..|pending| - 1];
      if configPath in visited || configPath !in repo.configs {
        Popped(repo, pending, visited, order);
        pending := rest;
      } else {
        Visited(repo, splitRoots, pending, visited, order);
        assert configPath in repo.configs.Keys - visited;
        assert (order + [configPath])[..|order|] == order;
        visited := visited + {configPath};
        order := order + [configPath];
        pending, violations := VisitReferences(repo, splitRoots, configPath, rest, violations);
      }
    }
    TraversalEnds(repo, visited, order);
    forall v ensures v in violations <==> Reported(repo, v) { ReportedExactly(repo, roots, order, v); }
  }

  lemma ReportedExactly(repo: Repo, roots: seq<string>, order: seq<string>, v: Violation)
    requires LongestFirstList(repo.splitPackages, roots) && ListsReached(repo, order)
        && forall c :: c in order ==> c in repo.configs
    ensures v in AllViolations(repo, roots, order) <==> Reported(repo, v)
  {
    hide Judge, Conforms, Reached, Describes;
    AllViolationsAre(repo, roots, order, v);
    forall c, r | c in repo.configs
      ensures Judge(repo, roots, c, r) == Some(v) <==> v.config == c && !Conforms(repo, c, r) && Describes(repo, r, v)
    {
      JudgeDescribes(repo, roots, c, r, v);
    }
  }

  lemma ViolationsAre(repo: Repo, roots: seq<string>, config: string, references: seq<Reference>, v: Violation)
    requires config in repo.configs
    ensures v in ViolationsOf(repo, roots, config, references) <==>
        exists r :: r in references && Judge(repo, roots, config, r) == Some(v)
  {
    hide Judge;
    if references != [] {
      ViolationsAre(repo, roots, config, references[1..], v);
      assert forall r :: r in references <==> r == references[0] || r in references[1..];
    }
  }

  lemma {:induction false} AllViolationsAre(repo: Repo, roots: seq<string>, configs: seq<string>, v: Violation)
    requires forall c :: c in configs ==> c in repo.configs
    ensures v in AllViolations(repo, roots, configs) <==>
              exists c, r :: c in configs && c in repo.configs && r in repo.configs[c].references
                && Judge(repo, roots, c, r) == Some(v)
    decreases |configs|
  {
    hide Judge, ViolationsOf;
    if configs != [] {
      var init, last := configs[..|configs| - 1], configs[|configs| - 1];
      LastApart(configs);
      AllViolationsAre(repo, roots, init, v);
      ViolationsAre(repo, roots, last, repo.configs[last].references, v);
    }
  }

  // ----- the half that the aggregate asks for

  function AggregateFace(repo: Repo, start: string): Face {
    if start == repo.root + "/tsconfig.host.json" then Host else Client
  }

  /** Outside split packages, or the half of the innermost one that has the face. */
  ghost predicate NamesHalf(repo: Repo, face: Face, reference: Reference) {
    || IsInnermost(repo.splitPackages, reference.target, None)
    || exists r :: IsInnermost(repo.splitPackages, reference.target, Some(r)) && reference.target == FaceConfig(r, face)
  }

  /** A route from an aggregate, and a reference of the config where it ends. */
  ghost predicate RouteTo(repo: Repo, route: seq<string>, reference: Reference) {
    && route != [] && IsRoute(repo, route) && route[|route| - 1] in repo.configs
    && reference in repo.configs[route[|route| - 1]].references
  }

  /** Every reference names the half that has the face of the aggregate it is reached from. */
  ghost predicate HalvesMatchAggregates(repo: Repo) {
    forall route, r :: RouteTo(repo, route, r) ==> NamesHalf(repo, AggregateFace(repo, route[0]), r)
  }

  /** Every config reached that references split packages has the face of the aggregate. */
  ghost predicate FacesMatchAggregates(repo: Repo) {
    forall route, r :: RouteTo(repo, route, r) && !IsInnermost(repo.splitPackages, r.target, None) ==>
      HasFace(repo, route[|route| - 1], AggregateFace(repo, route[0]))
  }

  ghost predicate NothingReported(repo: Repo) {
    forall c, r :: Reached(repo, c) && c in repo.configs && r in repo.configs[c].references ==> Conforms(repo, c, r)
  }

  lemma OneHalf(repo: Repo, config: string, face: Face, reference: Reference)
    requires Conforms(repo, config, reference) && !IsInnermost(repo.splitPackages, reference.target, None)
    ensures NamesHalf(repo, face, reference) <==> HasFace(repo, config, face)
  {
    hide IsInnermost, HasFace;
    var r, g :| IsInnermost(repo.splitPackages, reference.target, Some(r)) && HasFace(repo, config, g)
      && reference.target == FaceConfig(r, g);
    if NamesHalf(repo, face, reference) {
      var r' :| IsInnermost(repo.splitPackages, reference.target, Some(r')) && reference.target == FaceConfig(r', face);
      InnermostUnique(repo.splitPackages, reference.target, Some(r), Some(r'));
      HalvesDiffer(r, g, face);
    }
    if HasFace(repo, config, face) { OneFace(repo, config, face, g); }
  }

  lemma HalvesDiffer(root: string, a: Face, b: Face)
    requires FaceConfig(root, a) == FaceConfig(root, b)
    ensures a == b
  {
    assert FaceConfig(root, Host)[|root| + 10] == 'h' && FaceConfig(root, Client)[|root| + 10] == 'c';
  }

  /** An empty report means that references match the aggregates they are reached from
      exactly when the configs that make them have the faces of these aggregates: each is
      judged by its own face. */
  lemma EmptyReportIff(repo: Repo)
    requires NothingReported(repo)
    ensures HalvesMatchAggregates(repo) <==> FacesMatchAggregates(repo)
  {
    hide IsInnermost, HasFace, NamesHalf, Conforms, IsRoute, AggregateFace;
    forall route, r | RouteTo(repo, route, r) && !IsInnermost(repo.splitPackages, r.target, None)
      ensures NamesHalf(repo, AggregateFace(repo, route[0]), r) <==>
          HasFace(repo, route[|route| - 1], AggregateFace(repo, route[0]))
    {
      assert Reached(repo, route[|route| - 1]);
      OneHalf(repo, route[|route| - 1], AggregateFace(repo, route[0]), r);
    }
    forall route, r | RouteTo(repo, route, r) && IsInnermost(repo.splitPackages, r.target, None)
      ensures NamesHalf(repo, AggregateFace(repo, route[0]), r)
    {
      OutsideIsFine(repo, AggregateFace(repo, route[0]), r);
    }
  }

  /** Conversely, where configs have the faces of the aggregates they are reached from,
      nothing is reported exactly when references match these aggregates. */
  lemma MatchingReportIff(repo: Repo)
    requires FacesMatchAggregates(repo)
    ensures NothingReported(repo) <==> HalvesMatchAggregates(repo)
  {
    hide IsInnermost, HasFace, NamesHalf, Conforms, IsRoute, AggregateFace, Reached;
    if NothingReported(repo) { EmptyReportIff(repo); }
    if HalvesMatchAggregates(repo) {
      forall c, r | Reached(repo, c) && c in repo.configs && r in repo.configs[c].references
        ensures Conforms(repo, c, r)
      {
        var route := RouteOf(repo, c);
        assert RouteTo(repo, route, r);
        MatchingHalfConforms(repo, c, AggregateFace(repo, route[0]), r);
      }
    }
  }

  lemma RouteOf(repo: Repo, config: string) returns (route: seq<string>)
    requires Reached(repo, config)
    ensures route != [] && IsRoute(repo, route) && route[|route| - 1] == config
  {
    route :| IsRoute(repo, route) && route[|route| - 1] == config;
  }

  lemma MatchingHalfConforms(repo: Repo, config: string, face: Face, reference: Reference)
    requires NamesHalf(repo, face, reference)
    requires !IsInnermost(repo.splitPackages, reference.target, None) ==> HasFace(repo, config, face)
    ensures Conforms(repo, config, reference)
  {
  }

  lemma OutsideIsFine(repo: Repo, face: Face, reference: Reference)
    requires IsInnermost(repo.splitPackages, reference.target, None)
    ensures NamesHalf(repo, face, reference)
  {
  }

  const HOST_AGGREGATE := "/tsconfig.host.json"
  const NEUTRAL := "/q/tsconfig.json"
  const CLIENT_BASE := "/tsconfig.base.client.json"
  const CLIENT_HALF := "/p/tsconfig.client.json"

  /** The Host aggregate references a config without halves that extends the Client base
      and references the Client half of a split package. */
  const STRAY := Repo("", map[
    HOST_AGGREGATE := Config([Reference("./q", NEUTRAL)], None),
    NEUTRAL := Config([Reference("../p/tsconfig.client.json", CLIENT_HALF)], Some(CLIENT_BASE)),
    CLIENT_BASE := Config([], None),
    CLIENT_HALF := Config([], None)], ["/p"])

  lemma NotNamed(path: string, name: string)
    requires path != name && |path| > |name| && path[|path| - |name| - 1] != '/'
    ensures !HasName(path, name)
  {
    assert path[|path| - |name| - 1..][0] != ("/" + name)[0];
  }

  lemma StrayPaths()
    ensures IsInnermost(STRAY.splitPackages, NEUTRAL, None) && IsInnermost(STRAY.splitPackages, CLIENT_HALF, Some("/p"))
    ensures CLIENT_HALF == FaceConfig("/p", Client)
  {
    assert ("/p" + "/")[1] != NEUTRAL[1];
    assert CLIENT_HALF == "/p" + "/tsconfig.client.json";
    assert "/p" + "/" == CLIENT_HALF[..3];
  }

  lemma BaseIsClient()
    ensures NamedFace(STRAY, CLIENT_BASE) == Some(Client)
  {
    BaseIsNoHalf();
    hide HasName, CLIENT_BASE;
  }

  lemma BaseIsNoHalf()
    ensures !HasName(CLIENT_BASE, "tsconfig.host.json") && !HasName(CLIENT_BASE, "tsconfig.client.json")
    ensures CLIENT_BASE == STRAY.root + "/tsconfig.base.client.json"
        && CLIENT_BASE != STRAY.root + "/tsconfig.base.json"
  {
    hide HasName;
    assert |CLIENT_BASE| == 26 && CLIENT_BASE[7] == 'i' && CLIENT_BASE[5] == 'n';
    NotNamed(CLIENT_BASE, "tsconfig.host.json");
    NotNamed(CLIENT_BASE, "tsconfig.client.json");
  }

  lemma NeutralIsNameless()
    ensures NamedFace(STRAY, NEUTRAL).None?
  {
    assert NEUTRAL[0] == '/' && NEUTRAL[1] == 'q';
    assert (STRAY.root + "/tsconfig.base.json")[1] == 't' && (STRAY.root + "/tsconfig.base.client.json")[1] == 't';
  }

  lemma StrayFace()
    ensures HasFace(STRAY, NEUTRAL, Client)
  {
    BaseIsClient();
    NeutralIsNameless();
    hide NamedFace;
    assert Ancestor(STRAY, NEUTRAL, 0) == Some(NEUTRAL);
    assert Ancestor(STRAY, NEUTRAL, 1) == Parent(STRAY, NEUTRAL) == Some(CLIENT_BASE);
    assert NamedAt(STRAY, NEUTRAL, 0) == NamedFace(STRAY, NEUTRAL);
    FaceAt(STRAY, NEUTRAL, 1, Client);
  }

  /** There nothing is reported, and a Client half is reached from the Host aggregate. */
  lemma StrayHalfUnreported()
    ensures NothingReported(STRAY) && !HalvesMatchAggregates(STRAY)
  {
    hide HasFace, IsInnermost;
    StrayPaths();
    StrayFace();
    var half := Reference("../p/tsconfig.client.json", CLIENT_HALF);
    assert Conforms(STRAY, HOST_AGGREGATE, Reference("./q", NEUTRAL));
    assert Conforms(STRAY, NEUTRAL, half);
    var route := [HOST_AGGREGATE, NEUTRAL];
    assert STRAY.root + "/tsconfig.host.json" == HOST_AGGREGATE;
    assert Step(STRAY, HOST_AGGREGATE, NEUTRAL);
    assert IsRoute(STRAY, route) && RouteTo(STRAY, route, half);
    if IsInnermost(STRAY.splitPackages, CLIENT_HALF, None) {
      InnermostUnique(STRAY.splitPackages, CLIENT_HALF, None, Some("/p"));
    }
    OneHalf(STRAY, NEUTRAL, Host, half);
    if HasFace(STRAY, NEUTRAL, Host) { OneFace(STRAY, NEUTRAL, Host, Client); }
  }

  /** The Host aggregate references a config without a face that references the Host half. */
  const FACELESS := Repo("", map[
    HOST_AGGREGATE := Config([Reference("./q", NEUTRAL)], None),
    NEUTRAL := Config([Reference("../p/tsconfig.host.json", HOST_HALF)], None),
    HOST_HALF := Config([], None)], ["/p"])

  const HOST_HALF := "/p/tsconfig.host.json"

  lemma FacelessPaths()
    ensures IsInnermost(FACELESS.splitPackages, NEUTRAL, None)
        && IsInnermost(FACELESS.splitPackages, HOST_HALF, Some("/p"))
    ensures HOST_HALF == FaceConfig("/p", Host)
  {
    assert ("/p" + "/")[1] != NEUTRAL[1];
    assert HOST_HALF == "/p" + "/tsconfig.host.json";
    assert "/p" + "/" == HOST_HALF[..3];
  }

  lemma NeutralHasNoFace(face: Face)
    ensures !HasFace(FACELESS, NEUTRAL, face)
  {
    NeutralIsNameless();
    assert NamedFace(FACELESS, NEUTRAL) == NamedFace(STRAY, NEUTRAL);
    hide NamedFace;
    forall n: nat ensures !InheritsFace(FACELESS, NEUTRAL, n, face) {
      assert Ancestor(FACELESS, NEUTRAL, 0) == Some(NEUTRAL);
      if n > 0 && Ancestor(FACELESS, NEUTRAL, n).Some? {
        AncestorBelow(FACELESS, NEUTRAL, n, 1);
        NoGrandparent(FACELESS, NEUTRAL);
      }
    }
  }

  lemma NeutralReached()
    ensures Reached(FACELESS, NEUTRAL)
  {
    FacelessPaths();
    hide HasFace, IsInnermost;
    assert Conforms(FACELESS, HOST_AGGREGATE, Reference("./q", NEUTRAL));
    assert FACELESS.root + "/tsconfig.host.json" == HOST_AGGREGATE;
    StartReached(FACELESS, HOST_AGGREGATE);
    hide Conforms;
    StepReached(FACELESS, HOST_AGGREGATE, NEUTRAL);
  }

  lemma HalfUnlikeFaceless(reference: Reference)
    requires reference.target == HOST_HALF
    ensures !Conforms(FACELESS, NEUTRAL, reference) && NamesHalf(FACELESS, Host, reference)
  {
    FacelessPaths();
    hide HasFace, IsInnermost;
    if IsInnermost(FACELESS.splitPackages, HOST_HALF, None) {
      InnermostUnique(FACELESS.splitPackages, HOST_HALF, None, Some("/p"));
    }
    forall face ensures !HasFace(FACELESS, NEUTRAL, face) { NeutralHasNoFace(face); }
  }

  /** There the Host half is reported although it is reached from the Host aggregate. */
  lemma MatchingHalfReported()
    ensures !NothingReported(FACELESS) && NamesHalf(FACELESS, Host, Reference("../p/tsconfig.host.json", HOST_HALF))
    ensures AggregateFace(FACELESS, HOST_AGGREGATE) == Host
  {
    var half := Reference("../p/tsconfig.host.json", HOST_HALF);
    NeutralReached();
    HalfUnlikeFaceless(half);
    assert FACELESS.root + "/tsconfig.host.json" == HOST_AGGREGATE;
    hide Conforms, Reached;
    assert half in FACELESS.configs[NEUTRAL].references;
  }
}
