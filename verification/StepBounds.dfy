/** Lookups return while steps stay bounded. */
module StepBounds {
  import opened Wrappers
  import opened ConfigTypes
  import opened TypeLookup
  import opened LookupTermination

  // Every declaration entered is remembered with its number of steps. So a walk that
  // keeps below some number of steps runs out of declarations to enter, and between two
  // of them it only descends in a type.

  ghost predicate StepsWithin(limit: nat, seen: set<Visit>) {
    forall v | v in seen :: v.steps <= limit
  }

  // ----- heights and visits

  function Height(t: Type): (h: nat)
    ensures h > 0
    decreases t
  {
    1 + match t
        case Literal(members) => HeightOfMembers(members)
        case Paren(inner) => Height(inner)
        case Intersection(parts) => HeightOfAll(parts)
        case Union(parts) => HeightOfAll(parts)
        case Array(element) => Height(element)
        case Operator(_, operand) => Height(operand)
        case Indexed(subject, _) => Height(subject)
        case Ref(_, _, args) => HeightOfAll(args)
        case Other(_) => 0
  }

  function HeightOfAll(types: seq<Type>): (h: nat)
    ensures forall t :: t in types ==> Height(t) <= h
    decreases types
  {
    if types == [] then 0
    else
      var first, rest := Height(types[0]), HeightOfAll(types[1..]);
      if first > rest then first else rest
  }

  function HeightOfMembers(members: seq<Member>): (h: nat)
    ensures forall m :: m in members ==> HeightOfMember(m) <= h
    decreases members
  {
    if members == [] then 0
    else
      var first, rest := HeightOfMember(members[0]), HeightOfMembers(members[1..]);
      if first > rest then first else rest
  }

  function HeightOfMember(m: Member): nat
    decreases m
  {
    if m.annotation.Some? then Height(m.annotation.value) else 0
  }

  function DeclHeight(decl: Decl): nat {
    match decl
    case Enum => 0
    case Alias(target, _) => Height(target)
    case Interface(members, _, _) => HeightOfMembers(members)
  }

  ghost predicate HeightsWithin(w: World, bound: nat) {
    forall key :: Declares(w, key) ==> DeclHeight(w.files[key.file].decls[key.name]) <= bound
  }

  /** The visits a walk can make without exceeding `limit` steps. */
  ghost function Visits(w: World, limit: nat): set<Visit> {
    set f, d, n | f in w.files && d in w.files[f].decls && 0 <= n <= limit :: Visit(Key(f, d), n)
  }

  ghost function Unvisited(w: World, limit: nat, seen: set<Visit>): nat {
    |Visits(w, limit) - seen|
  }

  /** Fuel for so many declarations still to enter, each of at most the given height. */
  function FuelFor(visits: nat, height: nat): nat {
    if visits == 0 then 0 else FuelFor(visits - 1, height) + height + 2
  }

  lemma FuelForMonotone(a: nat, b: nat, height: nat)
    requires a <= b
    ensures FuelFor(a, height) <= FuelFor(b, height)
  {
  }

  lemma VisitingUsesUp(w: World, limit: nat, seen: set<Visit>, visit: Visit)
    requires visit in Visits(w, limit) && visit !in seen
    ensures Unvisited(w, limit, seen) > 0 && Unvisited(w, limit, seen + {visit}) == Unvisited(w, limit, seen) - 1
  {
    var left := Visits(w, limit) - seen;
    assert visit in left;
    assert Visits(w, limit) - (seen + {visit}) == left - {visit};
  }

  lemma SeenUsesUp(w: World, limit: nat, seen: set<Visit>, later: set<Visit>)
    requires seen <= later
    ensures Unvisited(w, limit, later) <= Unvisited(w, limit, seen)
  {
    SubsetIsSmaller(Visits(w, limit) - later, Visits(w, limit) - seen);
  }

  lemma SubsetIsSmaller<T>(a: set<T>, b: set<T>)
    requires a <= b
    ensures |a| <= |b|
  {
    assert b == a + (b - a);
  }

  function NodeHeight(node: Node): nat {
    if node.TypeNode? then Height(node.t) else 0
  }

  /** Fuel for everything left to enter. */
  ghost function Need(w: World, limit: nat, bound: nat, seen: set<Visit>): nat {
    FuelFor(Unvisited(w, limit, seen), bound)
  }

  /** Entering a declaration pays for the height of its types. */
  lemma EnteringLeavesFuel(w: World, limit: nat, bound: nat, seen: set<Visit>, visit: Visit, height: nat, fuel: nat)
    requires fuel > Need(w, limit, bound, seen) && height <= bound
    requires visit in Visits(w, limit) && visit !in seen
    ensures fuel > 0 && fuel - 1 > Need(w, limit, bound, seen + {visit}) + height
  {
    VisitingUsesUp(w, limit, seen, visit);
  }

  ghost predicate NodeWithin(node: Node, height: nat) {
    NodeHeight(node) <= height
  }

  // ----- a walk that keeps its steps within a limit returns

  lemma {:induction false} NeverOverflows(w: World, limit: nat, bound: nat, node: Node, steps: seq<Step>,
        seen: set<Visit>, fuel: nat)
    requires Closed(w) && ValidNode(w, node) && HeightsWithin(w, bound)
    requires fuel > Need(w, limit, bound, seen) + NodeHeight(node)
    requires StepsWithin(limit, Lookup(w, node, steps, seen, fuel).seen)
    ensures Lookup(w, node, steps, seen, fuel).answer != Overflow
    decreases fuel, 1, 0
  {
    if steps != [] {
      match node
      case OpaqueNode =>
      case DeclNode(key) => DeclNeverOverflows(w, limit, bound, key, steps, seen, fuel);
      case TypeNode(file, t) => TypeNeverOverflows(w, limit, bound, file, t, steps, seen, fuel);
    }
  }

  lemma {:induction false} DeclNeverOverflows(w: World, limit: nat, bound: nat, key: Key, steps: seq<Step>,
        seen: set<Visit>, fuel: nat)
    requires Closed(w) && Declares(w, key) && HeightsWithin(w, bound) && steps != []
    requires fuel > Need(w, limit, bound, seen)
    requires StepsWithin(limit, Lookup(w, DeclNode(key), steps, seen, fuel).seen)
    ensures Lookup(w, DeclNode(key), steps, seen, fuel).answer != Overflow
    decreases fuel, 0, 1
  {
    hide Need;
    var visit := Visit(key, |steps|);
    var decl := w.files[key.file].decls[key.name];
    if visit !in seen && !decl.Enum? {
      assert visit in Visits(w, limit) by { assert visit in Lookup(w, DeclNode(key), steps, seen, fuel).seen; }
      EnteringLeavesFuel(w, limit, bound, seen, visit, DeclHeight(decl), fuel);
      match decl
      case Alias(target, _) =>
        NeverOverflows(w, limit, bound, TypeNode(key.file, target), steps, seen + {visit}, fuel - 1);
      case Interface(members, bases, _) =>
        if steps[0].MemberStep? {
          InterfaceNeverOverflows(w, limit, bound, key, members, bases, steps, seen + {visit}, fuel - 1);
        }
    }
  }

  lemma InterfaceNeverOverflows(w: World, limit: nat, bound: nat, key: Key, members: seq<Member>,
        bases: seq<Option<string>>, steps: seq<Step>, inside: set<Visit>, fuel: nat)
    requires Closed(w) && key.file in w.files && HeightsWithin(w, bound) && steps != [] && steps[0].MemberStep?
    requires fuel > Need(w, limit, bound, inside) + HeightOfMembers(members)
    requires var own := FindMember(members, steps[0].name);
             StepsWithin(limit, if own.Some? then IntoMember(w, key.file, own.value, steps, inside, fuel).seen
                                else LookupAll(w, BaseNodes(w, key.file, bases), steps, inside, fuel).seen)
    ensures var own := FindMember(members, steps[0].name);
            if own.Some? then IntoMember(w, key.file, own.value, steps, inside, fuel).answer != Overflow
            else Overflow !in LookupAll(w, BaseNodes(w, key.file, bases), steps, inside, fuel).answers
    decreases fuel, 4, |bases|
  {
    hide Need, Lookup, LookupAll;
    var own := FindMember(members, steps[0].name);
    if own.Some? {
      MemberNeverOverflows(w, limit, bound, key.file, own.value, steps, inside, fuel);
    } else {
      PartsNeverOverflow(w, limit, bound, BaseNodes(w, key.file, bases), steps, inside, 0, fuel);
    }
  }

  lemma MemberNeverOverflows(w: World, limit: nat, bound: nat, file: string, m: Member, steps: seq<Step>,
        seen: set<Visit>, fuel: nat)
    requires Closed(w) && file in w.files && HeightsWithin(w, bound) && steps != []
    requires m.annotation.Some? ==> fuel > Need(w, limit, bound, seen) + Height(m.annotation.value)
    requires StepsWithin(limit, IntoMember(w, file, m, steps, seen, fuel).seen)
    ensures IntoMember(w, file, m, steps, seen, fuel).answer != Overflow
    decreases fuel, 2, 0
  {
    hide Need, Lookup;
    if |steps| > 1 && m.annotation.Some? {
      NeverOverflows(w, limit, bound, TypeNode(file, m.annotation.value), steps[1..], seen, fuel);
    }
  }

  lemma {:induction false} TypeNeverOverflows(w: World, limit: nat, bound: nat, file: string, t: Type, steps: seq<Step>,
      seen: set<Visit>, fuel: nat)
    requires Closed(w) && file in w.files && HeightsWithin(w, bound) && steps != []
    requires fuel > Need(w, limit, bound, seen) + Height(t)
    requires StepsWithin(limit, Lookup(w, TypeNode(file, t), steps, seen, fuel).seen)
    ensures Lookup(w, TypeNode(file, t), steps, seen, fuel).answer != Overflow
    decreases fuel, 0, 1
  {
    hide Need;
    match t {
      case Literal(members) =>
        if steps[0].MemberStep? {
          var own := FindMember(members, steps[0].name);
          if own.Some? { MemberNeverOverflows(w, limit, bound, file, own.value, steps, seen, fuel - 1); }
        }
      case Paren(inner) => NeverOverflows(w, limit, bound, TypeNode(file, inner), steps, seen, fuel - 1);
      case Intersection(parts) => TypesNeverOverflow(w, limit, bound, file, parts, steps, seen, fuel - 1);
      case Union(parts) => TypesNeverOverflow(w, limit, bound, file, parts, steps, seen, fuel - 1);
      case Array(element) =>
        if steps[0].ArrayStep? { NeverOverflows(w, limit, bound, TypeNode(file, element), steps[1..], seen, fuel - 1); }
      case Operator(_, operand) => NeverOverflows(w, limit, bound, TypeNode(file, operand), steps, seen, fuel - 1);
      case Indexed(subject, index) =>
        NeverOverflows(w, limit, bound, TypeNode(file, subject), [MemberStep(index)] + steps, seen, fuel - 1);
      case Ref(name, qualified, args) =>
        RefNeverOverflows(w, limit, bound, file, name, qualified, args, steps, seen, fuel);
      case Other(_) =>
    }
  }

  lemma RefNeverOverflows(w: World, limit: nat, bound: nat, file: string, name: string, qualified: bool,
        args: seq<Type>, steps: seq<Step>, seen: set<Visit>, fuel: nat)
    requires Closed(w) && file in w.files && HeightsWithin(w, bound) && steps != []
    requires fuel > Need(w, limit, bound, seen) + Height(Ref(name, qualified, args))
    requires StepsWithin(limit, Lookup(w, TypeNode(file, Ref(name, qualified, args)), steps, seen, fuel).seen)
    ensures Lookup(w, TypeNode(file, Ref(name, qualified, args)), steps, seen, fuel).answer != Overflow
    decreases fuel, 0, 0
  {
    hide Need;
    if name in PASSTHROUGH_WRAPPERS && args != [] {
      NeverOverflows(w, limit, bound, TypeNode(file, args[0]), steps, seen, fuel - 1);
    } else if name in ARRAY_WRAPPERS && args != [] {
      if steps[0].ArrayStep? { NeverOverflows(w, limit, bound, TypeNode(file, args[0]), steps[1..], seen, fuel - 1); }
    } else if !qualified {
      NeverOverflows(w, limit, bound, Resolve(w, file, name), steps, seen, fuel - 1);
    }
  }

  lemma TypesNeverOverflow(w: World, limit: nat, bound: nat, file: string, parts: seq<Type>, steps: seq<Step>,
      seen: set<Visit>, fuel: nat)
    requires Closed(w) && file in w.files && HeightsWithin(w, bound)
    requires fuel > Need(w, limit, bound, seen) + HeightOfAll(parts)
    requires StepsWithin(limit, LookupAll(w, PartNodes(file, parts), steps, seen, fuel).seen)
    ensures Overflow !in LookupAll(w, PartNodes(file, parts), steps, seen, fuel).answers
    decreases fuel, 4, 0
  {
    hide Need, Lookup, LookupAll;
    var nodes := PartNodes(file, parts);
    forall node | node in nodes ensures NodeWithin(node, HeightOfAll(parts)) {
      var k :| 0 <= k < |nodes| && nodes[k] == node;
      assert parts[k] in parts;
    }
    PartsNeverOverflow(w, limit, bound, nodes, steps, seen, HeightOfAll(parts), fuel);
  }

  lemma {:induction false} PartsNeverOverflow(w: World, limit: nat, bound: nat, nodes: seq<Node>, steps: seq<Step>,
      seen: set<Visit>, height: nat, fuel: nat)
    requires Closed(w) && ValidNodes(w, nodes) && HeightsWithin(w, bound)
    requires forall node :: node in nodes ==> NodeWithin(node, height)
    requires fuel > Need(w, limit, bound, seen) + height
    requires StepsWithin(limit, LookupAll(w, nodes, steps, seen, fuel).seen)
    ensures Overflow !in LookupAll(w, nodes, steps, seen, fuel).answers
    decreases fuel, 3, |nodes|
  {
    if nodes != [] {
      hide Lookup;
      assert nodes[0] in nodes;
      var later := Lookup(w, nodes[0], steps, seen, fuel).seen;
      NeverOverflows(w, limit, bound, nodes[0], steps, seen, fuel);
      SeenUsesUp(w, limit, seen, later);
      FuelForMonotone(Unvisited(w, limit, later), Unvisited(w, limit, seen), bound);
      PartsNeverOverflow(w, limit, bound, nodes[1..], steps, later, height, fuel);
    }
  }

  lemma HeightsAreBounded(w: World, keys: set<Key>) returns (bound: nat)
    requires forall key :: key in keys ==> Declares(w, key)
    ensures forall key :: key in keys ==> Declares(w, key) && DeclHeight(w.files[key.file].decls[key.name]) <= bound
    decreases keys
  {
    if keys == {} { return 0; }
    var key :| key in keys;
    bound := HeightsAreBounded(w, keys - {key});
    var h := DeclHeight(w.files[key.file].decls[key.name]);
    if h > bound { bound := h; }
  }

  lemma MostSteps(visits: set<Visit>) returns (limit: nat)
    ensures StepsWithin(limit, visits)
    decreases visits
  {
    if visits == {} { return 0; }
    var visit :| visit in visits;
    limit := MostSteps(visits - {visit});
    if visit.steps > limit { limit := visit.steps; }
  }

  /** With stack enough, no declaration is entered with more than so many steps. */
  ghost predicate StepsStayBounded(w: World, node: Node, steps: seq<Step>)
    requires Closed(w) && ValidNode(w, node)
  {
    exists limit: nat, start: nat :: BoundedFrom(w, node, steps, limit, start)
  }

  ghost predicate BoundedFrom(w: World, node: Node, steps: seq<Step>, limit: nat, start: nat)
    requires Closed(w) && ValidNode(w, node)
  {
    forall fuel: nat | fuel >= start :: StepsWithin(limit, Lookup(w, node, steps, {}, fuel).seen)
  }

  /** A lookup returns exactly when the declarations it enters keep within some number of
      steps: adding steps without end is the only way not to return. */
  lemma ReturnsIffBounded(w: World, node: Node, steps: seq<Step>)
    requires Closed(w) && ValidNode(w, node)
    ensures Returns(w, node, steps) <==> StepsStayBounded(w, node, steps)
  {
    hide Lookup;
    if Returns(w, node, steps) {
      var enough: nat :| Lookup(w, node, steps, {}, enough).answer != Overflow;
      var limit := MostSteps(Lookup(w, node, steps, {}, enough).seen);
      forall fuel: nat | fuel >= enough ensures StepsWithin(limit, Lookup(w, node, steps, {}, fuel).seen) {
        FuelIrrelevant(w, node, steps, {}, enough, fuel);
      }
      assert BoundedFrom(w, node, steps, limit, enough);
    }
    if StepsStayBounded(w, node, steps) {
      var limit: nat, start: nat :| BoundedFrom(w, node, steps, limit, start);
      var bound := WorldHeight(w);
      var enough := start + Need(w, limit, bound, {}) + NodeHeight(node) + 1;
      NeverOverflows(w, limit, bound, node, steps, {}, enough);
    }
  }

  lemma WorldHeight(w: World) returns (bound: nat)
    ensures HeightsWithin(w, bound)
  {
    var keys := set f, d | f in w.files && d in w.files[f].decls :: Key(f, d);
    bound := HeightsAreBounded(w, keys);
    forall k | Declares(w, k) ensures DeclHeight(w.files[k.file].decls[k.name]) <= bound { assert k in keys; }
  }

  // ----- a bound read off the declarations

  type Rank = Key -> nat

  ghost predicate NodeFits(keys: set<Key>, rank: Rank, node: Node, slack: int) {
    node.DeclNode? ==> node.key in keys && rank(node.key) <= slack
  }

  /** Entering `t` with `slack` to spare, every declaration it leads to by adding and
      consuming steps is among `keys` and ranks within the slack left there: an indexed
      access costs one, a member or element hop gains one. */
  ghost predicate Fits(w: World, keys: set<Key>, rank: Rank, file: string, t: Type, slack: int)
    requires Closed(w) && file in w.files
    decreases t
  {
    match t
    case Literal(members) =>
      forall m | m in members :: m.annotation.Some? ==> Fits(w, keys, rank, file, m.annotation.value, slack + 1)
    case Paren(inner) => Fits(w, keys, rank, file, inner, slack)
    case Intersection(parts) => forall p | p in parts :: Fits(w, keys, rank, file, p, slack)
    case Union(parts) => forall p | p in parts :: Fits(w, keys, rank, file, p, slack)
    case Array(element) => Fits(w, keys, rank, file, element, slack + 1)
    case Operator(_, operand) => Fits(w, keys, rank, file, operand, slack)
    case Indexed(subject, _) => Fits(w, keys, rank, file, subject, slack - 1)
    case Ref(name, qualified, args) =>
      if name in PASSTHROUGH_WRAPPERS && args != [] then Fits(w, keys, rank, file, args[0], slack)
      else if name in ARRAY_WRAPPERS && args != [] then Fits(w, keys, rank, file, args[0], slack + 1)
      else qualified || NodeFits(keys, rank, Resolve(w, file, name), slack)
    case Other(_) => true
  }

  ghost predicate MemberFits(w: World, keys: set<Key>, rank: Rank, file: string, m: Member, slack: int)
    requires Closed(w) && file in w.files
  {
    m.annotation.Some? ==> Fits(w, keys, rank, file, m.annotation.value, slack + 1)
  }

  ghost predicate DeclFits(w: World, keys: set<Key>, rank: Rank, key: Key)
    requires Closed(w) && Declares(w, key)
  {
    match w.files[key.file].decls[key.name]
    case Enum => true
    case Alias(target, _) => Fits(w, keys, rank, key.file, target, rank(key))
    case Interface(members, bases, _) =>
      && (forall m | m in members :: MemberFits(w, keys, rank, key.file, m, rank(key)))
      && (forall node | node in BaseNodes(w, key.file, bases) :: NodeFits(keys, rank, node, rank(key)))
  }

  /** These declarations lead to each other only, and no cycle of them adds more steps
      than it consumes, witnessed by a rank. */
  ghost predicate NoGrowth(w: World, keys: set<Key>, rank: Rank)
    requires Closed(w)
  {
    forall key | key in keys :: Declares(w, key) && DeclFits(w, keys, rank, key)
  }

  ghost predicate AnyNodeFits(w: World, keys: set<Key>, rank: Rank, node: Node, slack: int)
    requires Closed(w) && ValidNode(w, node)
  {
    if node.TypeNode? then Fits(w, keys, rank, node.file, node.t, slack) else NodeFits(keys, rank, node, slack)
  }

  lemma {:induction false} StaysWithin(w: World, keys: set<Key>, rank: Rank, limit: nat, node: Node, steps: seq<Step>,
      seen: set<Visit>, slack: int, fuel: nat)
    requires Closed(w) && ValidNode(w, node) && NoGrowth(w, keys, rank)
    requires AnyNodeFits(w, keys, rank, node, slack) && |steps| + slack <= limit && StepsWithin(limit, seen)
    ensures StepsWithin(limit, Lookup(w, node, steps, seen, fuel).seen)
    decreases fuel, 1, 0
  {
    if fuel > 0 && steps != [] {
      match node
      case OpaqueNode =>
      case DeclNode(key) => DeclStaysWithin(w, keys, rank, limit, key, steps, seen, fuel);
      case TypeNode(file, t) => TypeStaysWithin(w, keys, rank, limit, file, t, steps, seen, slack, fuel);
    }
  }

  lemma DeclStaysWithin(w: World, keys: set<Key>, rank: Rank, limit: nat, key: Key, steps: seq<Step>, seen: set<Visit>,
      fuel: nat)
    requires Closed(w) && key in keys && NoGrowth(w, keys, rank) && fuel > 0 && steps != []
    requires |steps| + rank(key) <= limit && StepsWithin(limit, seen)
    ensures StepsWithin(limit, Lookup(w, DeclNode(key), steps, seen, fuel).seen)
    decreases fuel, 0, 1
  {
    assert DeclFits(w, keys, rank, key);
    hide NoGrowth;
    var inside := seen + {Visit(key, |steps|)};
    if Visit(key, |steps|) !in seen {
      match w.files[key.file].decls[key.name]
      case Enum =>
      case Alias(target, _) =>
        StaysWithin(w, keys, rank, limit, TypeNode(key.file, target), steps, inside, rank(key), fuel - 1);
      case Interface(members, bases, _) =>
        if steps[0].MemberStep? {
          var own := FindMember(members, steps[0].name);
          if own.Some? {
            MemberStaysWithin(w, keys, rank, limit, key.file, own.value, steps, inside, rank(key), fuel - 1);
          } else {
            PartsStayWithin(w, keys, rank, limit, BaseNodes(w, key.file, bases), steps, inside, rank(key), fuel - 1);
          }
        }
    }
  }

  lemma MemberStaysWithin(w: World, keys: set<Key>, rank: Rank, limit: nat, file: string, m: Member, steps: seq<Step>,
      seen: set<Visit>, slack: int, fuel: nat)
    requires Closed(w) && file in w.files && NoGrowth(w, keys, rank) && steps != []
    requires MemberFits(w, keys, rank, file, m, slack) && |steps| + slack <= limit && StepsWithin(limit, seen)
    ensures StepsWithin(limit, IntoMember(w, file, m, steps, seen, fuel).seen)
    decreases fuel, 2, 0
  {
    hide NoGrowth, Lookup;
    if |steps| > 1 && m.annotation.Some? {
      StaysWithin(w, keys, rank, limit, TypeNode(file, m.annotation.value), steps[1..], seen, slack + 1, fuel);
    }
  }

  lemma {:induction false} TypeStaysWithin(w: World, keys: set<Key>, rank: Rank, limit: nat, file: string, t: Type,
      steps: seq<Step>, seen: set<Visit>, slack: int, fuel: nat)
    requires Closed(w) && file in w.files && NoGrowth(w, keys, rank) && fuel > 0 && steps != []
    requires Fits(w, keys, rank, file, t, slack) && |steps| + slack <= limit && StepsWithin(limit, seen)
    ensures StepsWithin(limit, Lookup(w, TypeNode(file, t), steps, seen, fuel).seen)
    decreases fuel, 0, 1
  {
    hide NoGrowth;
    match t {
      case Literal(members) =>
        if steps[0].MemberStep? {
          var own := FindMember(members, steps[0].name);
          if own.Some? { MemberStaysWithin(w, keys, rank, limit, file, own.value, steps, seen, slack, fuel - 1); }
        }
      case Paren(inner) => StaysWithin(w, keys, rank, limit, TypeNode(file, inner), steps, seen, slack, fuel - 1);
      case Intersection(parts) =>
        PartsStayWithin(w, keys, rank, limit, PartNodes(file, parts), steps, seen, slack, fuel - 1);
      case Union(parts) => PartsStayWithin(w, keys, rank, limit, PartNodes(file, parts), steps, seen, slack, fuel - 1);
      case Array(element) =>
        if steps[0].ArrayStep? {
          StaysWithin(w, keys, rank, limit, TypeNode(file, element), steps[1..], seen, slack + 1, fuel - 1);
        }
      case Operator(_, operand) =>
        StaysWithin(w, keys, rank, limit, TypeNode(file, operand), steps, seen, slack, fuel - 1);
      case Indexed(subject, index) =>
        StaysWithin(w, keys, rank, limit, TypeNode(file, subject), [MemberStep(index)] + steps, seen, slack - 1,
          fuel - 1);
      case Ref(name, qualified, args) =>
        RefStaysWithin(w, keys, rank, limit, file, name, qualified, args, steps, seen, slack, fuel);
      case Other(_) =>
    }
  }

  lemma RefStaysWithin(w: World, keys: set<Key>, rank: Rank, limit: nat, file: string, name: string, qualified: bool,
      args: seq<Type>, steps: seq<Step>, seen: set<Visit>, slack: int, fuel: nat)
    requires Closed(w) && file in w.files && NoGrowth(w, keys, rank) && fuel > 0 && steps != []
    requires Fits(w, keys, rank, file, Ref(name, qualified, args), slack)
    requires |steps| + slack <= limit && StepsWithin(limit, seen)
    ensures StepsWithin(limit, Lookup(w, TypeNode(file, Ref(name, qualified, args)), steps, seen, fuel).seen)
    decreases fuel, 0, 0
  {
    hide NoGrowth;
    if name in PASSTHROUGH_WRAPPERS && args != [] {
      StaysWithin(w, keys, rank, limit, TypeNode(file, args[0]), steps, seen, slack, fuel - 1);
    } else if name in ARRAY_WRAPPERS && args != [] {
      if steps[0].ArrayStep? {
        StaysWithin(w, keys, rank, limit, TypeNode(file, args[0]), steps[1..], seen, slack + 1, fuel - 1);
      }
    } else if !qualified {
      StaysWithin(w, keys, rank, limit, Resolve(w, file, name), steps, seen, slack, fuel - 1);
    }
  }

  lemma {:induction false} PartsStayWithin(w: World, keys: set<Key>, rank: Rank, limit: nat, nodes: seq<Node>,
      steps: seq<Step>, seen: set<Visit>, slack: int, fuel: nat)
    requires Closed(w) && ValidNodes(w, nodes) && NoGrowth(w, keys, rank)
    requires |steps| + slack <= limit && StepsWithin(limit, seen)
    requires forall node :: node in nodes ==> AnyNodeFits(w, keys, rank, node, slack)
    ensures StepsWithin(limit, LookupAll(w, nodes, steps, seen, fuel).seen)
    decreases fuel, 3, |nodes|
  {
    if nodes != [] {
      hide Lookup, NoGrowth;
      assert nodes[0] in nodes;
      StaysWithin(w, keys, rank, limit, nodes[0], steps, seen, slack, fuel);
      PartsStayWithin(w, keys, rank, limit, nodes[1..], steps, Lookup(w, nodes[0], steps, seen, fuel).seen, slack,
        fuel);
    }
  }

  /** From any declaration of a set without a step-growing cycle every lookup returns, on
      any path, and with one answer however much stack there is beyond need. */
  lemma LookupReturns(w: World, keys: set<Key>, rank: Rank, key: Key, steps: seq<Step>) returns (enough: nat)
    requires Closed(w) && NoGrowth(w, keys, rank) && key in keys
    ensures Lookup(w, DeclNode(key), steps, {}, enough).answer != Overflow
    ensures forall fuel: nat | fuel >= enough ::
        Lookup(w, DeclNode(key), steps, {}, fuel) == Lookup(w, DeclNode(key), steps, {}, enough)
  {
    hide Lookup;
    var node, limit := DeclNode(key), |steps| + rank(key);
    forall fuel: nat ensures StepsWithin(limit, Lookup(w, node, steps, {}, fuel).seen) {
      StaysWithin(w, keys, rank, limit, node, steps, {}, rank(key), fuel);
    }
    assert BoundedFrom(w, node, steps, limit, 0);
    ReturnsIffBounded(w, node, steps);
    enough :| Lookup(w, node, steps, {}, enough).answer != Overflow;
    forall fuel: nat | fuel >= enough ensures Lookup(w, node, steps, {}, fuel) == Lookup(w, node, steps, {}, enough) {
      FuelIrrelevant(w, node, steps, {}, enough, fuel);
    }
  }
}
