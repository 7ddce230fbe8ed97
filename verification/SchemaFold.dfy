/** Folding composed runtime schemas: the key paths of every package that a schema
    intersects, directly or not, checked against the declared config type. */
module SchemaFold {
  import opened Wrappers
  import opened ConfigTypes
  import opened TypeLookup
  import opened Legibility
  import opened LookupExactness
  import opened TypeWalk

  /** One catalog entry: the key paths of its own schema, when it has one, and the
      packages whose schemas it intersects. */
  datatype Entry = Entry(pkg: string, schemaKeys: Option<seq<string>>, composes: seq<string>)

  type Catalog = map<string, Entry>

  function OwnKeys(e: Entry): seq<string> {
    if e.schemaKeys.Some? then e.schemaKeys.value else []
  }

  // ----- the walk

  /** What one call adds: the packages it entered, in order, the keys it returned and
      the composed names it complained about. */
  datatype Folded = Folded(entered: seq<string>, keys: seq<string>, unknown: seq<string>)

  function Entered(names: seq<string>): set<string> {
    set n | n in names
  }

  function FoldComposed(byName: Catalog, pkg: string, seen: set<string>): (r: Folded)
    requires pkg in byName
    ensures forall n :: n in r.entered ==> n in byName
    decreases byName.Keys - seen, 0
  {
    if pkg in seen then Folded([], [], [])
    else
      assert pkg in byName.Keys - seen;
      var rest := FoldEach(byName, byName[pkg].composes, seen + {pkg});
      Folded([pkg] + rest.entered, OwnKeys(byName[pkg]) + rest.keys, rest.unknown)
  }

  function FoldEach(byName: Catalog, composes: seq<string>, seen: set<string>): (r: Folded)
    ensures forall n :: n in r.entered ==> n in byName
    decreases byName.Keys - seen, 1 + |composes|
  {
    if composes == [] then Folded([], [], [])
    else if composes[0] !in byName then Both(Folded([], [], [composes[0]]), FoldEach(byName, composes[1..], seen))
    else
      var first := FoldComposed(byName, composes[0], seen);
      Both(first, FoldEach(byName, composes[1..], seen + Entered(first.entered)))
  }

  function Both(a: Folded, b: Folded): Folded {
    Folded(a.entered + b.entered, a.keys + b.keys, a.unknown + b.unknown)
  }

  /** The first `k` composed packages have been folded to `done`. */
  ghost predicate Underway(byName: Catalog, composes: seq<string>, k: nat, inside: set<string>, seen: set<string>,
        done: Folded)
    requires k <= |composes|
  {
    && seen == inside + Entered(done.entered)
    && FoldEach(byName, composes, inside) == Both(done, FoldEach(byName, composes[k..], seen))
  }

  lemma BothApart(a: Folded, b: Folded, c: Folded)
    ensures Both(Both(a, b), c) == Both(a, Both(b, c))
  {
  }

  lemma UnderwayNext(byName: Catalog, composes: seq<string>, k: nat, inside: set<string>, seen: set<string>,
        done: Folded)
    requires k < |composes| && Underway(byName, composes, k, inside, seen, done)
    ensures var next := if composes[k] in byName then FoldComposed(byName, composes[k], seen)
        else Folded([], [], [composes[k]]);
            Underway(byName, composes, k + 1, inside, seen + Entered(next.entered), Both(done, next))
  {
    hide FoldComposed;
    assert composes[k..][0] == composes[k] && composes[k..][1..] == composes[k + 1..];
    var next := if composes[k] in byName then FoldComposed(byName, composes[k], seen)
      else Folded([], [], [composes[k]]);
    assert seen + Entered(next.entered) == inside + Entered(Both(done, next).entered);
    assert Entered([]) == {} && seen + {} == seen;
    BothApart(done, next, FoldEach(byName, composes[k + 1..], seen + Entered(next.entered)));
  }

  lemma UnderwayEnds(byName: Catalog, composes: seq<string>, inside: set<string>, seen: set<string>, done: Folded)
    ensures Underway(byName, composes, 0, inside, inside, Folded([], [], []))
    ensures Underway(byName, composes, |composes|, inside, seen, done) ==>
              done == FoldEach(byName, composes, inside) && seen == inside + Entered(done.entered)
  {
    assert composes[0..] == composes && composes[|composes|..] == [];
    assert Both(done, Folded([], [], [])) == done;
    var all := FoldEach(byName, composes, inside);
    assert Both(Folded([], [], []), all) == all;
  }

  lemma UnfoldOnce(byName: Catalog, pkg: string, seen: set<string>)
    requires pkg in byName
    ensures Entered([]) == {}
    ensures var r := FoldComposed(byName, pkg, seen);
            if pkg in seen then r == Folded([], [], [])
            else
              var rest := FoldEach(byName, byName[pkg].composes, seen + {pkg});
              && r == Folded([pkg] + rest.entered, OwnKeys(byName[pkg]) + rest.keys, rest.unknown)
              && seen + Entered(r.entered) == seen + {pkg} + Entered(rest.entered)
              && pkg in byName.Keys - seen
  {
  }

  class SchemaWalk {
    const byName: Catalog
    var seen: set<string>
    var unknown: seq<string>

    constructor (byName: Catalog)
      ensures this.byName == byName && seen == {} && unknown == []
    {
      this.byName, seen, unknown := byName, {}, [];
    }

    method Fold(pkg: string) returns (keys: seq<string>)
      requires pkg in byName
      modifies this
      ensures var r := FoldComposed(byName, pkg, old(seen));
              && keys == r.keys
              && seen == old(seen) + Entered(r.entered)
              && unknown == old(unknown) + r.unknown
      decreases byName.Keys - seen
    {
      hide FoldComposed, FoldEach, Underway, Entered, OwnKeys;
      UnfoldOnce(byName, pkg, seen);
      if pkg in seen { return []; }
      seen := seen + {pkg};
      keys := OwnKeys(byName[pkg]);
      var composes := byName[pkg].composes;
      ghost var inside, done := seen, Folded([], [], []);
      UnderwayEnds(byName, composes, inside, seen, done);
      var k := 0;
      while k < |composes|
        invariant 0 <= k <= |composes| && inside <= seen && Underway(byName, composes, k, inside, seen, done)
        invariant keys == OwnKeys(byName[pkg]) + done.keys && unknown == old(unknown) + done.unknown
      {
        UnderwayNext(byName, composes, k, inside, seen, done);
        if composes[k] !in byName {
          assert seen + {} == seen;
          done := Both(done, Folded([], [], [composes[k]]));
          unknown := unknown + [composes[k]];
        } else {
          done := Both(done, FoldComposed(byName, composes[k], seen));
          var more := Fold(composes[k]);
          keys := keys + more;
        }
        k := k + 1;
      }
      UnderwayEnds(byName, composes, inside, seen, done);
    }
  }

  // ----- what the walk covers

  ghost predicate Composes(byName: Catalog, a: string, b: string) {
    a in byName && b in byName && b in byName[a].composes
  }

  /** A chain of compositions from one package to another. */
  ghost predicate IsChain(byName: Catalog, a: string, b: string, chain: seq<string>) {
    && chain != [] && chain[0] == a && chain[|chain| - 1] == b
    && forall i :: 0 <= i < |chain| - 1 ==> Composes(byName, chain[i], chain[i + 1])
  }

  ghost predicate Reaches(byName: Catalog, a: string, b: string) {
    exists chain :: IsChain(byName, a, b, chain)
  }

  lemma ReachesItself(byName: Catalog, a: string)
    ensures Reaches(byName, a, a)
  {
    assert IsChain(byName, a, a, [a]);
  }

  lemma ReachesOnwards(byName: Catalog, a: string, b: string, c: string)
    requires Composes(byName, a, b) && Reaches(byName, b, c)
    ensures Reaches(byName, a, c)
  {
    var chain :| IsChain(byName, b, c, chain);
    var longer := [a] + chain;
    forall i | 0 <= i < |longer| - 1 ensures Composes(byName, longer[i], longer[i + 1]) {
      if i > 0 { assert Composes(byName, chain[i - 1], chain[i]); }
    }
    assert IsChain(byName, a, c, longer);
  }

  function KeysOf(byName: Catalog, names: seq<string>): seq<string>
    requires forall n :: n in names ==> n in byName
  {
    if names == [] then [] else OwnKeys(byName[names[0]]) + KeysOf(byName, names[1..])
  }

  lemma KeysOfBoth(byName: Catalog, a: seq<string>, b: seq<string>)
    requires forall n :: n in a + b ==> n in byName
    ensures (forall n :: n in a ==> n in byName) && (forall n :: n in b ==> n in byName)
    ensures KeysOf(byName, a + b) == KeysOf(byName, a) + KeysOf(byName, b)
  {
    assert forall n :: n in a ==> n in a + b;
    assert forall n :: n in b ==> n in a + b;
    if a == [] {
      assert a + b == b;
    } else {
      assert (a + b)[1..] == a[1..] + b;
      KeysOfBoth(byName, a[1..], b);
    }
  }

  /** New packages only, each once; their keys in order; nothing they compose is left
      out, and the complaints are about what they compose but nobody declares. */
  ghost predicate Complete(byName: Catalog, r: Folded, seen: set<string>) {
    && (forall n :: n in r.entered ==> n in byName)
    && (forall i, j :: 0 <= i < j < |r.entered| ==> r.entered[i] != r.entered[j])
    && (forall n :: n in r.entered ==> n !in seen)
    && r.keys == KeysOf(byName, r.entered)
    && (forall a, b :: a in r.entered && Composes(byName, a, b) ==> b in seen || b in r.entered)
  }

  lemma CompleteTogether(byName: Catalog, a: Folded, b: Folded, seen: set<string>)
    requires Complete(byName, a, seen) && Complete(byName, b, seen + Entered(a.entered))
    ensures Complete(byName, Both(a, b), seen)
  {
    var all := a.entered + b.entered;
    forall i, j | 0 <= i < j < |all| ensures all[i] != all[j] {
      if i < |a.entered| <= j { assert all[i] in a.entered && b.entered[j - |a.entered|] in b.entered; }
    }
    KeysOfBoth(byName, a.entered, b.entered);
  }

  lemma {:induction false} FoldIsComplete(byName: Catalog, pkg: string, seen: set<string>)
    requires pkg in byName
    ensures Complete(byName, FoldComposed(byName, pkg, seen), seen)
    ensures pkg in seen || pkg in FoldComposed(byName, pkg, seen).entered
    decreases byName.Keys - seen, 0
  {
    if pkg !in seen {
      assert pkg in byName.Keys - seen;
      var rest := FoldEach(byName, byName[pkg].composes, seen + {pkg});
      FoldEachIsComplete(byName, byName[pkg].composes, seen + {pkg});
      EnterFirst(byName, pkg, rest, seen);
    }
  }

  lemma EnterFirst(byName: Catalog, pkg: string, rest: Folded, seen: set<string>)
    requires pkg in byName && pkg !in seen && Complete(byName, rest, seen + {pkg})
    requires forall b :: Composes(byName, pkg, b) ==> b in seen + {pkg} || b in rest.entered
    ensures Complete(byName, Folded([pkg] + rest.entered, OwnKeys(byName[pkg]) + rest.keys, rest.unknown), seen)
  {
    var all := [pkg] + rest.entered;
    assert all[1..] == rest.entered;
    forall i, j | 0 <= i < j < |all| ensures all[i] != all[j] {
      assert all[j] == rest.entered[j - 1] && rest.entered[j - 1] in rest.entered;
    }
  }

  lemma {:induction false} FoldEachIsComplete(byName: Catalog, composes: seq<string>, seen: set<string>)
    ensures Complete(byName, FoldEach(byName, composes, seen), seen)
    ensures forall b :: b in composes && b in byName ==> b in seen || b in FoldEach(byName, composes, seen).entered
    decreases byName.Keys - seen, 1 + |composes|
  {
    if composes != [] {
      if composes[0] !in byName {
        var rest := FoldEach(byName, composes[1..], seen);
        FoldEachIsComplete(byName, composes[1..], seen);
        assert Both(Folded([], [], [composes[0]]), rest)
          == Folded(rest.entered, rest.keys, [composes[0]] + rest.unknown);
      } else {
        var first := FoldComposed(byName, composes[0], seen);
        FoldIsComplete(byName, composes[0], seen);
        FoldEachIsComplete(byName, composes[1..], seen + Entered(first.entered));
        CompleteTogether(byName, first, FoldEach(byName, composes[1..], seen + Entered(first.entered)), seen);
      }
      assert forall b :: b in composes <==> b == composes[0] || b in composes[1..];
    }
  }

  /** Nothing is entered that compositions do not lead to. */
  lemma {:induction false} FoldStaysReachable(byName: Catalog, pkg: string, seen: set<string>)
    requires pkg in byName
    ensures forall n :: n in FoldComposed(byName, pkg, seen).entered ==> Reaches(byName, pkg, n)
    decreases byName.Keys - seen, 0
  {
    if pkg !in seen {
      assert pkg in byName.Keys - seen;
      FoldEachStaysReachable(byName, pkg, byName[pkg].composes, seen + {pkg});
      ReachesItself(byName, pkg);
    }
  }

  lemma {:induction false} FoldEachStaysReachable(byName: Catalog, pkg: string, composes: seq<string>,
        seen: set<string>)
    requires pkg in byName && forall b :: b in composes ==> b in byName[pkg].composes
    ensures forall n :: n in FoldEach(byName, composes, seen).entered ==> Reaches(byName, pkg, n)
    decreases byName.Keys - seen, 1 + |composes|
  {
    if composes != [] {
      assert forall b :: b in composes[1..] ==> b in composes;
      if composes[0] !in byName {
        FoldEachStaysReachable(byName, pkg, composes[1..], seen);
      } else {
        var first := FoldComposed(byName, composes[0], seen);
        FoldStaysReachable(byName, composes[0], seen);
        FoldEachStaysReachable(byName, pkg, composes[1..], seen + Entered(first.entered));
        forall n | n in first.entered ensures Reaches(byName, pkg, n) {
          ReachesOnwards(byName, pkg, composes[0], n);
        }
      }
    }
  }

  lemma {:induction false} ChainStaysEntered(byName: Catalog, r: Folded, chain: seq<string>, a: string, b: string)
    requires Complete(byName, r, {}) && IsChain(byName, a, b, chain) && a in r.entered
    ensures b in r.entered
    decreases |chain|
  {
    if |chain| > 1 {
      assert Composes(byName, chain[0], chain[1]);
      forall i | 0 <= i < |chain| - 2 ensures Composes(byName, chain[1..][i], chain[1..][i + 1]) {
        assert Composes(byName, chain[i + 1], chain[i + 2]);
      }
      ChainStaysEntered(byName, r, chain[1..], chain[1], b);
    }
  }

  // ----- the complaints

  /** A name is complained about when an entered package composes it and no entry has it. */
  ghost predicate Dangling(byName: Catalog, entered: seq<string>, name: string) {
    name !in byName && exists p :: p in entered && p in byName && name in byName[p].composes
  }

  lemma {:induction false} FoldComplains(byName: Catalog, pkg: string, seen: set<string>, name: string)
    requires pkg in byName
    ensures var r := FoldComposed(byName, pkg, seen); name in r.unknown <==> Dangling(byName, r.entered, name)
    decreases byName.Keys - seen, 0
  {
    if pkg !in seen {
      assert pkg in byName.Keys - seen;
      var rest := FoldEach(byName, byName[pkg].composes, seen + {pkg});
      FoldEachComplains(byName, byName[pkg].composes, seen + {pkg}, name);
      assert forall p :: p in [pkg] + rest.entered <==> p == pkg || p in rest.entered;
    }
  }

  lemma {:induction false} FoldEachComplains(byName: Catalog, composes: seq<string>, seen: set<string>, name: string)
    ensures var r := FoldEach(byName, composes, seen);
            name in r.unknown <==> (name in composes && name !in byName) || Dangling(byName, r.entered, name)
    decreases byName.Keys - seen, 1 + |composes|
  {
    if composes != [] {
      if composes[0] !in byName {
        FoldEachComplains(byName, composes[1..], seen, name);
      } else {
        var first := FoldComposed(byName, composes[0], seen);
        FoldComplains(byName, composes[0], seen, name);
        FoldEachComplains(byName, composes[1..], seen + Entered(first.entered), name);
      }
    }
  }

  /** Some package that compositions lead to composes a name that no entry has. */
  ghost predicate NotCollected(byName: Catalog, pkg: string, name: string) {
    name !in byName && exists p :: Reaches(byName, pkg, p) && p in byName && name in byName[p].composes
  }

  /** Cycles notwithstanding: every package that compositions lead to is entered, none
      other, each once, and the keys are theirs, each package's together and once. The
      complaints are exactly about composed names that no entry has. */
  lemma FoldIsExact(byName: Catalog, pkg: string)
    requires pkg in byName
    ensures var r := FoldComposed(byName, pkg, {});
            && (forall n :: n in r.entered <==> Reaches(byName, pkg, n))
            && (forall i, j :: 0 <= i < j < |r.entered| ==> r.entered[i] != r.entered[j])
            && r.keys == KeysOf(byName, r.entered)
            && (forall n :: n in r.unknown <==> NotCollected(byName, pkg, n))
  {
    var r := FoldComposed(byName, pkg, {});
    FoldIsComplete(byName, pkg, {});
    FoldStaysReachable(byName, pkg, {});
    forall n | Reaches(byName, pkg, n) ensures n in r.entered {
      var chain :| IsChain(byName, pkg, n, chain);
      ChainStaysEntered(byName, r, chain, pkg, n);
    }
    forall n ensures n in r.unknown <==> NotCollected(byName, pkg, n) {
      FoldComplains(byName, pkg, {}, n);
    }
  }

  // ----- the check of one entry

  datatype Report = Report(notCollected: seq<string>, hidden: seq<string>)

  /** Check an entry's folded schema against its config type. A key is reported as hidden
      only when, by the text of names, no reading of the type has it, nor any reading of
      what is meant where that is written; and each is one of a reachable package's own.
      Conversely every such key is reported that no reading has, where the check returns and
      the key meets no declaration twice with equally many steps. */
  method CheckSchema(byName: Catalog, pkg: string, w: World, config: Key, stack: nat) returns (report: Report)
    requires pkg in byName && Closed(w) && Declares(w, config)
    ensures forall n :: n in report.notCollected <==> NotCollected(byName, pkg, n)
    ensures forall key :: key in report.hidden <==>
        IsKeyOfReachable(byName, pkg, key) && IsMissing(w, config, key, stack)
    ensures forall key :: key in report.hidden ==> NeverThere(AsWritten, w, DeclNode(config), PathSteps(key))
    ensures forall key :: key in report.hidden && Legible(w, DeclNode(config), PathSteps(key)) ==>
              NeverThere(AsMeant, w, DeclNode(config), PathSteps(key))
    ensures forall key | IsKeyOfReachable(byName, pkg, key) :: IsDecided(w, DeclNode(config), PathSteps(key), stack) ==>
              (key in report.hidden <==> NeverThere(AsWritten, w, DeclNode(config), PathSteps(key)))
    ensures forall key | IsKeyOfReachable(byName, pkg, key) ::
              IsDecidedAsMeant(w, DeclNode(config), PathSteps(key), stack) ==>
              (key in report.hidden <==> NeverThere(AsMeant, w, DeclNode(config), PathSteps(key)))
  {
    hide NeverThere, Legible, Lookup, IsDecided, PathSteps, KeysOf, Reaches, FoldComposed;
    var walk := new SchemaWalk(byName);
    var keys := walk.Fold(pkg);
    FoldIsExact(byName, pkg);
    var notCollected := walk.unknown;
    var hidden := [];
    for k := 0 to |keys|
      invariant forall key :: key in hidden <==> key in keys[..k] && IsMissing(w, config, key, stack)
      invariant forall key :: key in hidden ==> NeverThere(AsWritten, w, DeclNode(config), PathSteps(key))
      invariant forall key :: key in hidden && Legible(w, DeclNode(config), PathSteps(key)) ==>
          NeverThere(AsMeant, w, DeclNode(config), PathSteps(key))
    {
      var violation := PathViolates(w, config, keys[k], stack);
      assert keys[..k + 1] == keys[..k] + [keys[k]];
      if violation { hidden := hidden + [keys[k]]; }
    }
    assert keys[..|keys|] == keys;
    KeysAreReachable(byName, pkg);
    HiddenIsExact(w, config, stack);
    report := Report(notCollected, hidden);
  }

  ghost predicate IsMissing(w: World, config: Key, path: string, stack: nat)
    requires Closed(w) && Declares(w, config)
  {
    Lookup(w, DeclNode(config), PathSteps(path), {}, stack).answer == Missing
  }

  lemma HiddenIsExact(w: World, config: Key, stack: nat)
    requires Closed(w) && Declares(w, config)
    ensures forall key :: IsDecided(w, DeclNode(config), PathSteps(key), stack) ==>
              (IsMissing(w, config, key, stack) <==> NeverThere(AsWritten, w, DeclNode(config), PathSteps(key)))
    ensures forall key :: IsDecidedAsMeant(w, DeclNode(config), PathSteps(key), stack) ==>
              (IsMissing(w, config, key, stack) <==> NeverThere(AsMeant, w, DeclNode(config), PathSteps(key)))
  {
    hide NeverThere, Legible, Lookup, IsDecided, PathSteps;
    forall key | IsDecided(w, DeclNode(config), PathSteps(key), stack)
      ensures IsMissing(w, config, key, stack) <==> NeverThere(AsWritten, w, DeclNode(config), PathSteps(key))
      ensures Legible(w, DeclNode(config), PathSteps(key)) ==>
          (IsMissing(w, config, key, stack) <==> NeverThere(AsMeant, w, DeclNode(config), PathSteps(key)))
    {
      LookupIsExact(w, DeclNode(config), PathSteps(key), stack);
    }
  }

  ghost predicate IsKeyOfReachable(byName: Catalog, pkg: string, key: string) {
    exists p :: Reaches(byName, pkg, p) && p in byName && key in OwnKeys(byName[p])
  }

  lemma KeysOfMembers(byName: Catalog, names: seq<string>)
    requires forall n :: n in names ==> n in byName
    ensures forall key :: key in KeysOf(byName, names) <==> exists p :: p in names && key in OwnKeys(byName[p])
  {
    if names != [] {
      KeysOfMembers(byName, names[1..]);
      assert forall p :: p in names <==> p == names[0] || p in names[1..];
    }
  }

  lemma KeysAreReachable(byName: Catalog, pkg: string)
    requires pkg in byName
    ensures forall key :: key in FoldComposed(byName, pkg, {}).keys <==> IsKeyOfReachable(byName, pkg, key)
  {
    FoldIsExact(byName, pkg);
    KeysOfMembers(byName, FoldComposed(byName, pkg, {}).entered);
  }
}
