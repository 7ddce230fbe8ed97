/** The parsed source files the config catalog reads: type declarations, imports and
    re-exports, and how a type name resolves to a declaration. */
module ConfigTypes {
  import opened Wrappers

  /** A type expression. An operator is `readonly` or another, such as `keyof`. `Other` is
      what the walk cannot see through, an index that is not a string literal included;
      its parts are the types written inside it. */
  datatype Type =
    | Literal(members: seq<Member>)
    | Paren(inner: Type)
    | Intersection(parts: seq<Type>)
    | Union(parts: seq<Type>)
    | Array(element: Type)
    | Operator(isReadonly: bool, operand: Type)
    | Indexed(subject: Type, index: string)
    | Ref(name: string, qualified: bool, args: seq<Type>)
    | Other(parts: seq<Type>)

  /** A property signature has a name as it is `written`, quotes and brackets included, and
      the name it means. The walk passes over methods and accessors, and over an index
      signature, which means every string. */
  datatype Naming = Property(written: string, name: string) | PassedOver(name: string) | StringIndex

  /** A member without an annotation has no type; the annotation of a method is its
      signature, `Other`. */
  datatype Member = Member(naming: Naming, annotation: Option<Type>)

  /** A heritage clause that is not a plain name is `None`. `others` are the types
      written elsewhere in the declaration. */
  datatype Decl =
    | Interface(members: seq<Member>, bases: seq<Option<string>>, others: seq<Type>)
    | Alias(target: Type, others: seq<Type>)
    | Enum

  /** Where a module specifier leads: a `.ts` file next to this one, another relative
      path, or a package. */
  datatype Source = RelativeFile(file: string) | RelativeOther(path: string) | Package(name: string)
  datatype Import = Import(imported: string, source: Source)

  datatype Element = Element(exported: string, original: string)
  datatype ReExport = Star(file: string) | Named(file: string, elements: seq<Element>)

  /** `decls` are the first declarations of each name, which are all that the walk finds;
      `further` are the others. */
  datatype FileCtx = FileCtx(decls: map<string, Decl>, further: map<string, seq<Decl>>, imports: map<string, Import>,
                             exports: seq<ReExport>)

  /** The files by absolute path, and the entry file of each workspace package. */
  datatype World = World(files: map<string, FileCtx>, entries: map<string, string>)

  /** A name looked for in a file; also a declaration, when the file declares it. */
  datatype Key = Key(file: string, name: string)

  /** Every relative specifier leads to a file that can be read. */
  ghost predicate Closed(w: World) {
    && (forall f, e :: f in w.files && e in w.files[f].exports ==> e.file in w.files)
    && (forall f, n :: f in w.files && n in w.files[f].imports && w.files[f].imports[n].source.RelativeFile? ==>
          w.files[f].imports[n].source.file in w.files)
  }

  predicate Declares(w: World, key: Key) {
    key.file in w.files && key.name in w.files[key.file].decls
  }

  function Renamed(elements: seq<Element>, name: string): Option<string> {
    if elements == [] then None
    else if elements[0].exported == name then Some(elements[0].original)
    else Renamed(elements[1..], name)
  }

  /** The name a re-export asks its file for, when it carries `name` at all. */
  function LookFor(e: ReExport, name: string): Option<string> {
    match e
    case Star(_) => Some(name)
    case Named(_, elements) => Renamed(elements, name)
  }

  // ----- the walk over re-exports

  datatype Walk = Walk(hit: Option<Key>, seen: set<Key>)

  ghost predicate NamesCover(w: World, names: set<string>) {
    forall f, e, n, found :: f in w.files && e in w.files[f].exports && n in names && LookFor(e, n) == Some(found) ==>
      found in names
  }

  ghost function Keys(w: World, names: set<string>): set<Key> {
    set f, n | f in w.files && n in names :: Key(f, n)
  }

  /** Find an exported declaration, following re-exports, visiting each name of each
      file once. */
  ghost function FindExported(w: World, names: set<string>, key: Key, seen: set<Key>): (r: Walk)
    requires Closed(w) && NamesCover(w, names) && key in Keys(w, names) && seen <= Keys(w, names)
    ensures seen + {key} <= r.seen <= Keys(w, names)
    ensures r.hit.Some? ==> Declares(w, r.hit.value)
    decreases Keys(w, names) - seen, 0
  {
    if key in seen then Walk(None, seen)
    else if Declares(w, key) then Walk(Some(key), seen + {key})
    else
      assert key in Keys(w, names) - seen;
      FindThrough(w, names, key, 0, seen + {key})
  }

  /** Try the re-exports of the file from the `k`-th on. */
  ghost function FindThrough(w: World, names: set<string>, key: Key, k: nat, seen: set<Key>): (r: Walk)
    requires Closed(w) && NamesCover(w, names) && key in Keys(w, names) && seen <= Keys(w, names)
    requires k <= |w.files[key.file].exports|
    ensures seen <= r.seen <= Keys(w, names)
    ensures r.hit.Some? ==> Declares(w, r.hit.value)
    decreases Keys(w, names) - seen, 1 + |w.files[key.file].exports| - k
  {
    var exports := w.files[key.file].exports;
    if k == |exports| then Walk(None, seen)
    else
      var lookFor := LookFor(exports[k], key.name);
      if lookFor.None? then FindThrough(w, names, key, k + 1, seen)
      else
        assert exports[k] in exports;
        var r := FindExported(w, names, Key(exports[k].file, lookFor.value), seen);
        if r.hit.Some? then r else FindThrough(w, names, key, k + 1, r.seen)
  }

  class ExportWalk {
    const w: World
    ghost const names: set<string>
    var seen: set<Key>

    ghost predicate Valid()
      reads this
    {
      Closed(w) && NamesCover(w, names) && seen <= Keys(w, names)
    }

    constructor (w: World, ghost names: set<string>)
      requires Closed(w) && NamesCover(w, names)
      ensures Valid() && this.w == w && this.names == names && seen == {}
    {
      this.w, this.names, this.seen := w, names, {};
    }

    method Find(key: Key) returns (hit: Option<Key>)
      requires Valid() && key in Keys(w, names)
      modifies this
      ensures Valid() && Walk(hit, seen) == FindExported(w, names, key, old(seen))
      decreases Keys(w, names) - seen
    {
      if key in seen { return None; }
      seen := seen + {key};
      if Declares(w, key) { return Some(key); }
      var exports := w.files[key.file].exports;
      ghost var entered := seen;
      var k := 0;
      while k < |exports|
        invariant 0 <= k <= |exports| && Valid() && entered <= seen
        invariant FindThrough(w, names, key, 0, entered) == FindThrough(w, names, key, k, seen)
      {
        var lookFor := LookFor(exports[k], key.name);
        if lookFor.Some? {
          assert exports[k] in exports;
          assert key in Keys(w, names) - old(seen);
          hit := Find(Key(exports[k].file, lookFor.value));
          if hit.Some? { return; }
        }
        k := k + 1;
      }
      return None;
    }
  }

  // ----- what the walk finds

  /** The re-export carries `name`, which its file calls `found`: of elements that export one
      name, the first counts. */
  ghost predicate AsksFor(e: ReExport, name: string, found: string) {
    match e
    case Star(_) => found == name
    case Named(_, elements) => exists k :: IsFirstElement(elements, name, k) && elements[k].original == found
  }

  predicate IsFirstElement(elements: seq<Element>, name: string, k: int) {
    && 0 <= k < |elements| && elements[k].exported == name
    && forall j :: 0 <= j < k ==> elements[j].exported != name
  }

  lemma {:induction false} RenamedIsFirst(elements: seq<Element>, name: string)
    ensures match Renamed(elements, name)
            case Some(found) => exists k :: IsFirstElement(elements, name, k) && elements[k].original == found
            case None => forall k :: 0 <= k < |elements| ==> elements[k].exported != name
  {
    if elements != [] && elements[0].exported == name {
      assert IsFirstElement(elements, name, 0);
    } else if elements != [] {
      RenamedIsFirst(elements[1..], name);
      if Renamed(elements, name).Some? {
        var k :| IsFirstElement(elements[1..], name, k) && elements[1..][k].original == Renamed(elements, name).value;
        forall j | 0 <= j < k + 1 ensures elements[j].exported != name {
          assert j > 0 ==> elements[j] == elements[1..][j - 1];
        }
        assert IsFirstElement(elements, name, k + 1);
      } else {
        forall k | 0 <= k < |elements| ensures elements[k].exported != name {
          assert k > 0 ==> elements[k] == elements[1..][k - 1];
        }
      }
    }
  }

  lemma LookForAsks(e: ReExport, name: string, found: string)
    ensures LookFor(e, name) == Some(found) <==> AsksFor(e, name, found)
  {
    if e.Named? {
      RenamedIsFirst(e.elements, name);
      forall j, k | IsFirstElement(e.elements, name, j) && IsFirstElement(e.elements, name, k) ensures j == k {
      }
    }
  }

  ghost predicate ExportStep(w: World, a: Key, b: Key) {
    && a.file in w.files
    && exists e :: e in w.files[a.file].exports && AsksFor(e, a.name, b.name) && e.file == b.file
  }

  /** A chain of re-exports that starts at `a` and ends at a declaration. */
  ghost predicate ExportChain(w: World, a: Key, chain: seq<Key>) {
    && chain != [] && chain[0] == a && Declares(w, chain[|chain| - 1])
    && forall i :: 0 <= i < |chain| - 1 ==> ExportStep(w, chain[i], chain[i + 1])
  }

  lemma ChainOnwards(w: World, a: Key, b: Key, chain: seq<Key>)
    requires ExportStep(w, a, b) && ExportChain(w, b, chain)
    ensures ExportChain(w, a, [a] + chain)
  {
    var longer := [a] + chain;
    forall i | 0 <= i < |longer| - 1 ensures ExportStep(w, longer[i], longer[i + 1]) {
      if i > 0 { assert ExportStep(w, chain[i - 1], chain[i]); }
    }
  }

  /** None of these keys declares anything, and re-exports lead from them only into `all`. */
  ghost predicate DeadEnds(w: World, keys: set<Key>, all: set<Key>) {
    forall a :: a in keys ==> !Declares(w, a) && forall b :: ExportStep(w, a, b) ==> b in all
  }

  lemma DeadEndsJoin(w: World, seen: set<Key>, middle: set<Key>, all: set<Key>)
    requires DeadEnds(w, middle - seen, middle) && DeadEnds(w, all - middle, all) && seen <= middle <= all
    ensures DeadEnds(w, all - seen, all)
  {
    forall a | a in all - seen ensures !Declares(w, a) && forall b :: ExportStep(w, a, b) ==> b in all {
      assert a in middle - seen || a in all - middle;
    }
  }

  /** The re-exports of the file from the `k`-th on all lead into `all`. */
  ghost predicate Tried(w: World, key: Key, k: nat, all: set<Key>)
    requires key.file in w.files
  {
    var exports := w.files[key.file].exports;
    forall i :: k <= i < |exports| && LookFor(exports[i], key.name).Some? ==>
      Key(exports[i].file, LookFor(exports[i], key.name).value) in all
  }

  lemma TriedAll(w: World, key: Key, all: set<Key>)
    requires key.file in w.files && Tried(w, key, 0, all)
    ensures forall b :: ExportStep(w, key, b) ==> b in all
  {
    var exports := w.files[key.file].exports;
    forall b | ExportStep(w, key, b) ensures b in all {
      var e :| e in exports && AsksFor(e, key.name, b.name) && e.file == b.file;
      LookForAsks(e, key.name, b.name);
      var i :| 0 <= i < |exports| && exports[i] == e;
    }
  }

  /** A hit is reached by re-exports; a miss leaves the new keys closed under them. */
  lemma WalkOutcome(w: World, names: set<string>, key: Key, seen: set<Key>)
    requires Closed(w) && NamesCover(w, names) && key in Keys(w, names) && seen <= Keys(w, names)
    ensures var r := FindExported(w, names, key, seen);
            if r.hit.Some? then exists chain :: ExportChain(w, key, chain) && chain[|chain| - 1] == r.hit.value
            else DeadEnds(w, r.seen - seen, r.seen)
    decreases Keys(w, names) - seen, 0
  {
    if key !in seen {
      if Declares(w, key) {
        assert ExportChain(w, key, [key]);
      } else {
        assert key in Keys(w, names) - seen;
        ThroughOutcome(w, names, key, 0, seen + {key});
        var r := FindThrough(w, names, key, 0, seen + {key});
        if r.hit.None? {
          TriedAll(w, key, r.seen);
          forall a | a in r.seen - seen ensures a == key || a in r.seen - (seen + {key}) {
          }
        }
      }
    }
  }

  lemma ThroughOutcome(w: World, names: set<string>, key: Key, k: nat, seen: set<Key>)
    requires Closed(w) && NamesCover(w, names) && key in Keys(w, names) && seen <= Keys(w, names)
    requires k <= |w.files[key.file].exports|
    ensures var r := FindThrough(w, names, key, k, seen);
            if r.hit.Some? then exists chain :: ExportChain(w, key, chain) && chain[|chain| - 1] == r.hit.value
            else DeadEnds(w, r.seen - seen, r.seen) && Tried(w, key, k, r.seen)
    decreases Keys(w, names) - seen, 1 + |w.files[key.file].exports| - k
  {
    var exports := w.files[key.file].exports;
    if k < |exports| {
      var lookFor := LookFor(exports[k], key.name);
      if lookFor.None? {
        ThroughOutcome(w, names, key, k + 1, seen);
      } else {
        assert exports[k] in exports;
        var next := Key(exports[k].file, lookFor.value);
        LookForAsks(exports[k], key.name, next.name);
        assert ExportStep(w, key, next);
        WalkOutcome(w, names, next, seen);
        var r := FindExported(w, names, next, seen);
        if r.hit.Some? {
          var chain :| ExportChain(w, next, chain) && chain[|chain| - 1] == r.hit.value;
          ChainOnwards(w, key, next, chain);
          assert ([key] + chain)[|chain|] == r.hit.value;
        } else {
          ThroughOutcome(w, names, key, k + 1, r.seen);
          var rest := FindThrough(w, names, key, k + 1, r.seen);
          if rest.hit.None? { DeadEndsJoin(w, seen, r.seen, rest.seen); }
        }
      }
    }
  }

  lemma ClosedSeenBlocksChain(w: World, seen: set<Key>, chain: seq<Key>)
    requires chain != [] && ExportChain(w, chain[0], chain) && chain[0] in seen
    requires DeadEnds(w, seen, seen)
    ensures false
  {
    if |chain| > 1 {
      assert ExportStep(w, chain[0], chain[1]);
      forall i | 0 <= i < |chain| - 2 ensures ExportStep(w, chain[1..][i], chain[1..][i + 1]) {
        assert ExportStep(w, chain[i + 1], chain[i + 2]);
      }
      ClosedSeenBlocksChain(w, seen, chain[1..]);
    }
  }

  /** Starting fresh, the walk finds a declaration exactly when re-exports lead to one,
      cycles notwithstanding, and what it finds is one they lead to. */
  lemma WalkFindsExactlyReachable(w: World, names: set<string>, key: Key)
    requires Closed(w) && NamesCover(w, names) && key in Keys(w, names)
    ensures var hit := FindExported(w, names, key, {}).hit;
            && (hit.Some? <==> exists chain :: ExportChain(w, key, chain))
            && (hit.Some? ==> exists chain :: ExportChain(w, key, chain) && chain[|chain| - 1] == hit.value)
  {
    WalkOutcome(w, names, key, {});
    var r := FindExported(w, names, key, {});
    if r.hit.None? {
      assert r.seen - {} == r.seen;
      forall chain ensures !ExportChain(w, key, chain) {
        if ExportChain(w, key, chain) { ClosedSeenBlocksChain(w, r.seen, chain); }
      }
    }
  }

  // ----- which of several

  /** No re-exports lead from here to a declaration without passing through `avoid`. */
  ghost predicate NoWay(w: World, key: Key, avoid: set<Key>) {
    forall chain :: ExportChain(w, key, chain) ==> exists i :: 0 <= i < |chain| && chain[i] in avoid
  }

  ghost predicate AllNoWay(w: World, keys: set<Key>, avoid: set<Key>) {
    forall key :: key in keys ==> NoWay(w, key, avoid)
  }

  /** The `k`-th re-export of the file, if it carries the name, leads nowhere. */
  ghost predicate LeadsNowhere(w: World, key: Key, k: nat, avoid: set<Key>)
    requires key.file in w.files && k < |w.files[key.file].exports|
  {
    var e := w.files[key.file].exports[k];
    forall found :: AsksFor(e, key.name, found) ==> NoWay(w, Key(e.file, found), avoid)
  }

  ghost predicate AllLeadNowhere(w: World, key: Key, avoid: set<Key>)
    requires key.file in w.files
  {
    forall k :: 0 <= k < |w.files[key.file].exports| ==> LeadsNowhere(w, key, k, avoid)
  }

  /** The chain that always takes the first re-export that leads to a declaration without
      coming back to where the chain has been. */
  ghost predicate FirstChain(w: World, chain: seq<Key>, avoid: set<Key>)
    decreases |chain|
  {
    && chain != [] && chain[0] !in avoid && chain[0].file in w.files
    && (Declares(w, chain[0]) <==> |chain| == 1)
    && (|chain| > 1 ==>
          && FirstChain(w, chain[1..], avoid + {chain[0]})
          && exists k: nat :: IsFirstWay(w, chain[0], chain[1], k, avoid + {chain[0]}))
  }

  ghost predicate IsFirstWay(w: World, key: Key, next: Key, k: nat, avoid: set<Key>)
    requires key.file in w.files
  {
    var exports := w.files[key.file].exports;
    && k < |exports| && exports[k].file == next.file && AsksFor(exports[k], key.name, next.name)
    && forall j :: 0 <= j < k ==> LeadsNowhere(w, key, j, avoid)
  }

  lemma ChainTail(w: World, chain: seq<Key>, i: nat)
    requires chain != [] && ExportChain(w, chain[0], chain) && i < |chain|
    ensures ExportChain(w, chain[i], chain[i..])
  {
    forall j | 0 <= j < |chain| - i - 1 ensures ExportStep(w, chain[i..][j], chain[i..][j + 1]) {
      assert ExportStep(w, chain[i + j], chain[i + j + 1]);
    }
  }

  lemma LastAt(chain: seq<Key>, key: Key) returns (i: nat)
    requires key in chain
    ensures i < |chain| && chain[i] == key && key !in chain[i + 1..]
    decreases |chain|
  {
    i := |chain| - 1;
    if chain[i] != key {
      var init, last := chain[..i], chain[i];
      assert chain == init + [last];
      i := LastAt(init, key);
      assert chain[i + 1..] == init[i + 1..] + [last];
    }
  }

  /** What leads nowhere without `key`, when the re-exports of `key` do neither, leads nowhere. */
  lemma NowhereThrough(w: World, key: Key, avoid: set<Key>, start: Key)
    requires key.file in w.files && !Declares(w, key)
    requires AllLeadNowhere(w, key, avoid + {key})
    requires start == key || NoWay(w, start, avoid + {key})
    ensures NoWay(w, start, avoid)
  {
    forall chain: seq<Key> | ExportChain(w, start, chain) ensures exists i :: 0 <= i < |chain| && chain[i] in avoid {
      if key in chain {
        var i := LastAt(chain, key);
        assert ExportStep(w, chain[i], chain[i + 1]);
        ChainTail(w, chain, i + 1);
        var e: ReExport :| e in w.files[key.file].exports && AsksFor(e, key.name, chain[i + 1].name)
              && e.file == chain[i + 1].file;
        var k :| 0 <= k < |w.files[key.file].exports| && w.files[key.file].exports[k] == e;
        assert LeadsNowhere(w, key, k, avoid + {key});
        var rest := chain[i + 1..];
        var j :| 0 <= j < |rest| && rest[j] in avoid + {key};
        assert rest[j] in rest && chain[i + 1 + j] == rest[j];
      } else {
        var i :| 0 <= i < |chain| && chain[i] in avoid + {key};
        assert chain[i] in chain;
      }
    }
  }

  /** `seen` is `avoid` and keys from which nothing leads on without it. */
  ghost predicate SeenIsSpent(w: World, seen: set<Key>, avoid: set<Key>) {
    avoid <= seen && AllNoWay(w, seen - avoid, avoid)
  }

  ghost predicate EndsFirst(w: World, key: Key, avoid: set<Key>, hit: Key) {
    exists chain :: FirstChain(w, chain, avoid) && chain[0] == key && chain[|chain| - 1] == hit
  }

  lemma WalkIsFirst(w: World, names: set<string>, key: Key, seen: set<Key>, avoid: set<Key>)
    requires Closed(w) && NamesCover(w, names) && key in Keys(w, names) && seen <= Keys(w, names)
    requires SeenIsSpent(w, seen, avoid)
    ensures var r := FindExported(w, names, key, seen);
            if r.hit.Some? then EndsFirst(w, key, avoid, r.hit.value)
            else SeenIsSpent(w, r.seen, avoid) && NoWay(w, key, avoid)
    decreases Keys(w, names) - seen, 0
  {
    hide NoWay;
    if key in seen {
      if key in avoid { StuckAtOnce(w, key, avoid); }
    } else if Declares(w, key) {
      assert FirstChain(w, [key], avoid);
    } else {
      assert key in Keys(w, names) - seen;
      assert (seen + {key}) - (avoid + {key}) == seen - avoid;
      forall d | d in seen - avoid ensures NoWay(w, d, avoid + {key}) { AvoidMore(w, d, avoid, key); }
      ThroughIsFirst(w, names, key, 0, seen + {key}, avoid);
      var r := FindThrough(w, names, key, 0, seen + {key});
      if r.hit.None? {
        forall d | d in r.seen - avoid ensures NoWay(w, d, avoid) { NowhereThrough(w, key, avoid, d); }
        NowhereThrough(w, key, avoid, key);
      }
    }
  }

  lemma StuckAtOnce(w: World, key: Key, avoid: set<Key>)
    requires key in avoid
    ensures NoWay(w, key, avoid)
  {
  }

  lemma AvoidMore(w: World, key: Key, avoid: set<Key>, more: Key)
    requires NoWay(w, key, avoid)
    ensures NoWay(w, key, avoid + {more})
  {
    forall chain | ExportChain(w, key, chain) ensures exists i :: 0 <= i < |chain| && chain[i] in avoid + {more} {
      var i :| 0 <= i < |chain| && chain[i] in avoid;
    }
  }

  lemma ThroughIsFirst(w: World, names: set<string>, key: Key, k: nat, seen: set<Key>, avoid: set<Key>)
    requires Closed(w) && NamesCover(w, names) && key in Keys(w, names) && seen <= Keys(w, names)
    requires k <= |w.files[key.file].exports| && key !in avoid && !Declares(w, key)
    requires SeenIsSpent(w, seen, avoid + {key})
    requires forall j :: 0 <= j < k ==> LeadsNowhere(w, key, j, avoid + {key})
    ensures var r := FindThrough(w, names, key, k, seen);
            && (r.hit.Some? ==> EndsFirst(w, key, avoid, r.hit.value))
            && (r.hit.None? ==> SeenIsSpent(w, r.seen, avoid + {key}) && AllLeadNowhere(w, key, avoid + {key}))
    decreases Keys(w, names) - seen, 1 + |w.files[key.file].exports| - k
  {
    hide NoWay, AsksFor;
    var exports := w.files[key.file].exports;
    if k < |exports| {
      var lookFor := LookFor(exports[k], key.name);
      forall found ensures AsksFor(exports[k], key.name, found) <==> lookFor == Some(found) {
        LookForAsks(exports[k], key.name, found);
      }
      if lookFor.None? {
        ThroughIsFirst(w, names, key, k + 1, seen, avoid);
      } else {
        assert exports[k] in exports;
        var next := Key(exports[k].file, lookFor.value);
        WalkIsFirst(w, names, next, seen, avoid + {key});
        var r := FindExported(w, names, next, seen);
        if r.hit.Some? {
          var chain :| FirstChain(w, chain, avoid + {key}) && chain[0] == next && chain[|chain| - 1] == r.hit.value;
          var longer := [key] + chain;
          assert longer[1..] == chain && IsFirstWay(w, key, next, k, avoid + {key});
          assert FirstChain(w, longer, avoid);
        } else {
          ThroughIsFirst(w, names, key, k + 1, r.seen, avoid);
        }
      }
    }
  }

  /** Starting fresh, the walk finds what this chain ends in. */
  lemma FirstIsFound(w: World, names: set<string>, key: Key)
    requires Closed(w) && NamesCover(w, names) && key in Keys(w, names)
    ensures var hit := FindExported(w, names, key, {}).hit;
            && (hit.Some? <==> exists chain :: FirstChain(w, chain, {}) && chain[0] == key)
            && (hit.Some? ==> EndsFirst(w, key, {}, hit.value))
  {
    WalkIsFirst(w, names, key, {}, {});
    forall chain | FirstChain(w, chain, {}) && chain[0] == key ensures !NoWay(w, key, {}) {
      FirstChainLeads(w, chain, {});
    }
  }

  lemma OneFirstWay(w: World, key: Key, x: Key, y: Key, j: nat, k: nat, avoid: set<Key>)
    requires key.file in w.files && IsFirstWay(w, key, x, j, avoid) && IsFirstWay(w, key, y, k, avoid)
    requires !NoWay(w, x, avoid) && !NoWay(w, y, avoid)
    ensures x == y
  {
    hide NoWay, AsksFor;
    assert j < k ==> LeadsNowhere(w, key, j, avoid);
    assert k < j ==> LeadsNowhere(w, key, k, avoid);
    LookForAsks(w.files[key.file].exports[j], key.name, x.name);
    LookForAsks(w.files[key.file].exports[k], key.name, y.name);
  }

  /** There is one such chain at most. */
  lemma {:induction false} FirstChainIsOne(w: World, a: seq<Key>, b: seq<Key>, avoid: set<Key>)
    requires FirstChain(w, a, avoid) && FirstChain(w, b, avoid) && a[0] == b[0]
    ensures a == b
    decreases |a|
  {
    assert a == [a[0]] + a[1..] && b == [b[0]] + b[1..];
    if |a| > 1 {
      var more := avoid + {a[0]};
      hide IsFirstWay, NoWay, ExportChain, Declares;
      var j: nat :| IsFirstWay(w, a[0], a[1], j, more);
      var k: nat :| IsFirstWay(w, b[0], b[1], k, more);
      FirstChainLeads(w, a[1..], more);
      FirstChainLeads(w, b[1..], more);
      OneFirstWay(w, a[0], a[1], b[1], j, k, more);
      FirstChainIsOne(w, a[1..], b[1..], more);
    }
  }

  lemma {:induction false} FirstChainLeads(w: World, chain: seq<Key>, avoid: set<Key>)
    requires FirstChain(w, chain, avoid)
    ensures ExportChain(w, chain[0], chain) && forall i :: 0 <= i < |chain| ==> chain[i] !in avoid
    ensures !NoWay(w, chain[0], avoid)
    decreases |chain|
  {
    if |chain| > 1 {
      var k: nat :| IsFirstWay(w, chain[0], chain[1], k, avoid + {chain[0]});
      assert w.files[chain[0].file].exports[k] in w.files[chain[0].file].exports;
      FirstChainLeads(w, chain[1..], avoid + {chain[0]});
      ChainOnwards(w, chain[0], chain[1], chain[1..]);
      assert [chain[0]] + chain[1..] == chain;
      forall i | 0 <= i < |chain| ensures chain[i] !in avoid {
        if i > 0 { assert chain[i] == chain[1..][i - 1]; }
      }
    }
  }

  // ----- resolving a referenced type name

  /** Every name an import or a re-export can ask for. */
  ghost function Names(w: World): set<string> {
    (set f, n | f in w.files && n in w.files[f].imports :: w.files[f].imports[n].imported)
    + (set f, e, x | f in w.files && e in w.files[f].exports && e.Named? && x in e.elements :: x.original)
  }

  lemma NamesCoverThemselves(w: World)
    ensures NamesCover(w, Names(w))
  {
    forall f, e, n, found | f in w.files && e in w.files[f].exports && n in Names(w) && LookFor(e, n) == Some(found)
      ensures found in Names(w)
    {
      if e.Named? { RenamedIsFirst(e.elements, n); }
    }
  }

  /** What the import of a name asks which readable file for. */
  function ImportedKey(w: World, file: string, name: string): Option<Key>
    requires file in w.files
  {
    if name !in w.files[file].imports then None else
    var imp := w.files[file].imports[name];
    match imp.source
    case RelativeFile(target) => Some(Key(target, imp.imported))
    case RelativeOther(_) => None
    case Package(pkg) =>
      if pkg in w.entries && w.entries[pkg] in w.files then Some(Key(w.entries[pkg], imp.imported)) else None
  }

  /** Declared here, imported from a relative file, or imported from a workspace
      package; anything else is out of reach. */
  ghost function DeclForTypeName(w: World, file: string, name: string): (decl: Option<Key>)
    requires Closed(w) && file in w.files
    ensures decl.Some? ==> Declares(w, decl.value)
  {
    NamesCoverThemselves(w);
    var asked := ImportedKey(w, file, name);
    if name in w.files[file].decls then Some(Key(file, name))
    else if asked.None? then None
    else FindExported(w, Names(w), asked.value, {}).hit
  }

  /** What re-exports make of a name: a declaration exactly when some chain of them leads to
      one, and then the one that the first chain ends in. */
  ghost predicate IsExported(w: World, key: Key, decl: Option<Key>) {
    && (decl.Some? <==> exists chain :: ExportChain(w, key, chain))
    && (decl.Some? ==> EndsFirst(w, key, {}, decl.value))
  }

  /** A name means its local declaration; without one, what the file that it is imported from
      exports under the imported name. */
  ghost predicate Means(w: World, file: string, name: string, decl: Option<Key>)
    requires file in w.files
  {
    var ctx := w.files[file];
    if name in ctx.decls then decl == Some(Key(file, name))
    else if name !in ctx.imports then decl == None
    else
      var imported := ctx.imports[name].imported;
      match ctx.imports[name].source
      case RelativeFile(target) => IsExported(w, Key(target, imported), decl)
      case RelativeOther(_) => decl == None
      case Package(pkg) =>
        if pkg in w.entries && w.entries[pkg] in w.files then IsExported(w, Key(w.entries[pkg], imported), decl)
        else decl == None
  }

  lemma DeclIsMeant(w: World, file: string, name: string)
    requires Closed(w) && file in w.files
    ensures Means(w, file, name, DeclForTypeName(w, file, name))
  {
    hide ExportChain, FindExported, EndsFirst, FirstChain;
    NamesCoverThemselves(w);
    var asked := ImportedKey(w, file, name);
    if asked.Some? {
      WalkFindsExactlyReachable(w, Names(w), asked.value);
      FirstIsFound(w, Names(w), asked.value);
    }
  }

  method ResolveDecl(w: World, file: string, name: string) returns (decl: Option<Key>)
    requires Closed(w) && file in w.files
    ensures decl == DeclForTypeName(w, file, name) && Means(w, file, name, decl)
  {
    DeclIsMeant(w, file, name);
    NamesCoverThemselves(w);
    var ctx := w.files[file];
    if name in ctx.decls { return Some(Key(file, name)); }
    if name !in ctx.imports { return None; }
    var imp := ctx.imports[name];
    var target: string;
    match imp.source {
      case RelativeFile(relative) => target := relative;
      case RelativeOther(_) => return None;
      case Package(pkg) =>
        if pkg !in w.entries || w.entries[pkg] !in w.files { return None; }
        target := w.entries[pkg];
    }
    var walk := new ExportWalk(w, Names(w));
    decl := walk.Find(Key(target, imp.imported));
  }
}
