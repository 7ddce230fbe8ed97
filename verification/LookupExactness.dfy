/** When the lookup answers exactly. */
module LookupExactness {
  import opened Wrappers
  import opened ConfigTypes
  import opened TypeLookup
  import opened Legibility

  // An answer stays `Unknown` without need only where the walk cuts off a declaration that
  // it has entered before. Where the path meets none twice, each answer is exact.

  // ----- the declarations a path meets

  /** The named declarations met where the path leads on, to depth `n`, each with the steps to go. */
  ghost function Visits(w: World, node: Node, steps: seq<Step>, n: nat): multiset<Visit>
    requires Closed(w) && ValidNode(w, node)
    decreases n, 0
  {
    if n == 0 || steps == [] then multiset{}
    else match node
    case OpaqueNode => multiset{}
    case DeclNode(key) =>
      var visit := Visit(key, |steps|);
      (match w.files[key.file].decls[key.name]
       case Enum => multiset{}
       case Alias(target, _) => multiset{visit} + Visits(w, TypeNode(key.file, target), steps, n - 1)
       case Interface(members, bases, _) =>
         multiset{visit}
         + (if steps[0].ArrayStep? then multiset{}
            else
              var own := FindMember(members, steps[0].name);
              if own.Some? then VisitsBelow(w, key.file, own.value.annotation, steps, n - 1)
              else VisitsAll(w, BaseNodes(w, key.file, bases), steps, n - 1)))
    case TypeNode(file, t) =>
      (match t
       case Literal(members) =>
         if steps[0].ArrayStep? then multiset{}
         else
           var own := FindMember(members, steps[0].name);
           if own.Some? then VisitsBelow(w, file, own.value.annotation, steps, n - 1) else multiset{}
       case Paren(inner) => Visits(w, TypeNode(file, inner), steps, n - 1)
       case Intersection(parts) => VisitsAll(w, PartNodes(file, parts), steps, n - 1)
       case Union(parts) => VisitsAll(w, PartNodes(file, parts), steps, n - 1)
       case Array(element) => VisitsElement(w, file, element, steps, n - 1)
       case Operator(_, operand) => Visits(w, TypeNode(file, operand), steps, n - 1)
       case Indexed(subject, index) => Visits(w, TypeNode(file, subject), [MemberStep(index)] + steps, n - 1)
       case Ref(name, _, args) =>
         (match ReferenceKind(AsWritten, w, file, t)
          case PassesThrough => Visits(w, TypeNode(file, args[0]), steps, n - 1)
          case HoldsElements => VisitsElement(w, file, args[0], steps, n - 1)
          case OutOfReach => multiset{}
          case NamesType => Visits(w, Resolve(w, file, name), steps, n - 1))
       case Other(_) => multiset{})
  }

  ghost function VisitsBelow(w: World, file: string, annotation: Option<Type>, steps: seq<Step>,
        n: nat): multiset<Visit>
    requires Closed(w) && file in w.files && steps != []
    decreases n, 1
  {
    if |steps| == 1 || annotation.None? then multiset{}
    else Visits(w, TypeNode(file, annotation.value), steps[1..], n)
  }

  ghost function VisitsElement(w: World, file: string, element: Type, steps: seq<Step>, n: nat): multiset<Visit>
    requires Closed(w) && file in w.files && steps != []
    decreases n, 1
  {
    if steps[0].ArrayStep? then Visits(w, TypeNode(file, element), steps[1..], n) else multiset{}
  }

  ghost function VisitsAll(w: World, nodes: seq<Node>, steps: seq<Step>, n: nat): multiset<Visit>
    requires Closed(w) && ValidNodes(w, nodes)
    decreases n, 1 + |nodes|
  {
    if nodes == [] then multiset{} else Visits(w, nodes[0], steps, n) + VisitsAll(w, nodes[1..], steps, n)
  }

  ghost predicate AtMostOnce(visits: multiset<Visit>) {
    forall visit :: visits[visit] <= 1
  }

  /** No declaration is met twice with equally many steps to go. */
  ghost predicate MeetsOnce(w: World, node: Node, steps: seq<Step>)
    requires Closed(w) && ValidNode(w, node)
  {
    forall n: nat :: AtMostOnce(Visits(w, node, steps, n))
  }

  /** None of these visits is there twice or was made before. */
  ghost predicate Fresh(visits: multiset<Visit>, seen: set<Visit>) {
    forall visit :: visit in visits ==> visits[visit] == 1 && visit !in seen
  }

  lemma OnceIsFresh(visits: multiset<Visit>)
    requires AtMostOnce(visits)
    ensures Fresh(visits, {})
  {
  }

  ghost predicate Within(now: set<Visit>, seen: set<Visit>, visits: multiset<Visit>) {
    forall visit :: visit in now ==> visit in seen || visit in visits
  }

  lemma RestIsFresh(first: multiset<Visit>, rest: multiset<Visit>, seen: set<Visit>, now: set<Visit>)
    requires Fresh(first + rest, seen) && Within(now, seen, first)
    ensures Fresh(first, seen) && Fresh(rest, now)
  {
    forall visit | visit in first || visit in rest
      ensures visit !in seen && first[visit] + rest[visit] == 1
    {
      assert visit in first + rest;
    }
  }

  // ----- the walk enters no others

  lemma {:induction false} SeenWithin(w: World, node: Node, steps: seq<Step>, seen: set<Visit>, fuel: nat)
    requires Closed(w) && ValidNode(w, node)
    ensures Within(Lookup(w, node, steps, seen, fuel).seen, seen, Visits(w, node, steps, fuel))
    decreases fuel, 1
  {
    if fuel > 0 && steps != [] {
      match node
      case OpaqueNode =>
      case DeclNode(key) =>
        var inside := seen + {Visit(key, |steps|)};
        match w.files[key.file].decls[key.name] {
          case Enum =>
          case Alias(target, _) => SeenWithin(w, TypeNode(key.file, target), steps, inside, fuel - 1);
          case Interface(members, bases, _) =>
            if steps[0].MemberStep? {
              var own := FindMember(members, steps[0].name);
              if own.Some? { SeenWithinMember(w, key.file, own.value, steps, inside, fuel - 1); }
              else { SeenWithinAll(w, BaseNodes(w, key.file, bases), steps, inside, fuel - 1); }
            }
        }
      case TypeNode(file, t) =>
        SeenWithinType(w, file, t, steps, seen, fuel);
    }
  }

  lemma {:induction false} SeenWithinType(w: World, file: string, t: Type, steps: seq<Step>, seen: set<Visit>,
        fuel: nat)
    requires Closed(w) && file in w.files && steps != [] && fuel > 0
    ensures Within(Lookup(w, TypeNode(file, t), steps, seen, fuel).seen, seen,
                Visits(w, TypeNode(file, t), steps, fuel))
    decreases fuel, 0
  {
    match t {
      case Literal(members) =>
        if steps[0].MemberStep? {
          var own := FindMember(members, steps[0].name);
          if own.Some? { SeenWithinMember(w, file, own.value, steps, seen, fuel - 1); }
        }
      case Paren(inner) => SeenWithin(w, TypeNode(file, inner), steps, seen, fuel - 1);
      case Intersection(parts) => SeenWithinAll(w, PartNodes(file, parts), steps, seen, fuel - 1);
      case Union(parts) => SeenWithinAll(w, PartNodes(file, parts), steps, seen, fuel - 1);
      case Array(element) => SeenWithinElement(w, file, element, steps, seen, fuel - 1);
      case Operator(_, operand) => SeenWithin(w, TypeNode(file, operand), steps, seen, fuel - 1);
      case Indexed(subject, index) =>
        SeenWithin(w, TypeNode(file, subject), [MemberStep(index)] + steps, seen, fuel - 1);
      case Ref(_, _, _) => SeenWithinRef(w, file, t, steps, seen, fuel);
      case Other(_) =>
    }
  }

  lemma {:induction false} SeenWithinRef(w: World, file: string, t: Type, steps: seq<Step>, seen: set<Visit>, fuel: nat)
    requires Closed(w) && file in w.files && steps != [] && fuel > 0 && t.Ref?
    ensures Within(Lookup(w, TypeNode(file, t), steps, seen, fuel).seen, seen,
                Visits(w, TypeNode(file, t), steps, fuel))
    decreases fuel, 0, 0
  {
    match ReferenceKind(AsWritten, w, file, t)
    case PassesThrough => SeenWithin(w, TypeNode(file, t.args[0]), steps, seen, fuel - 1);
    case HoldsElements => SeenWithinElement(w, file, t.args[0], steps, seen, fuel - 1);
    case OutOfReach =>
    case NamesType => SeenWithin(w, Resolve(w, file, t.name), steps, seen, fuel - 1);
  }

  lemma SeenWithinMember(w: World, file: string, m: Member, steps: seq<Step>, seen: set<Visit>, fuel: nat)
    requires Closed(w) && file in w.files && steps != []
    ensures Within(IntoMember(w, file, m, steps, seen, fuel).seen, seen,
                VisitsBelow(w, file, m.annotation, steps, fuel))
    decreases fuel, 2
  {
    if |steps| > 1 && m.annotation.Some? {
      SeenWithin(w, TypeNode(file, m.annotation.value), steps[1..], seen, fuel);
    }
  }

  lemma SeenWithinElement(w: World, file: string, element: Type, steps: seq<Step>, seen: set<Visit>, fuel: nat)
    requires Closed(w) && file in w.files && steps != []
    ensures Within(IntoElement(w, file, element, steps, seen, fuel).seen, seen,
                VisitsElement(w, file, element, steps, fuel))
    decreases fuel, 2
  {
    if steps[0].ArrayStep? { SeenWithin(w, TypeNode(file, element), steps[1..], seen, fuel); }
  }

  lemma {:induction false} SeenWithinAll(w: World, nodes: seq<Node>, steps: seq<Step>, seen: set<Visit>, fuel: nat)
    requires Closed(w) && ValidNodes(w, nodes)
    ensures Within(LookupAll(w, nodes, steps, seen, fuel).seen, seen, VisitsAll(w, nodes, steps, fuel))
    decreases fuel, 2, |nodes|
  {
    hide Lookup, Visits;
    if nodes != [] {
      SeenWithin(w, nodes[0], steps, seen, fuel);
      SeenWithinAll(w, nodes[1..], steps, Lookup(w, nodes[0], steps, seen, fuel).seen, fuel);
    }
  }

  /** Each part is looked up with a `seen` set that holds none of the visits it makes. */
  lemma {:induction false} PartIsFresh(w: World, nodes: seq<Node>, steps: seq<Step>, seen: set<Visit>, fuel: nat,
        k: nat) returns (before: set<Visit>)
    requires Closed(w) && ValidNodes(w, nodes) && k < |nodes|
    requires Fresh(VisitsAll(w, nodes, steps, fuel), seen)
    ensures LookupAll(w, nodes, steps, seen, fuel).answers[k] == Lookup(w, nodes[k], steps, before, fuel).answer
    ensures Fresh(Visits(w, nodes[k], steps, fuel), before)
    decreases |nodes|
  {
    hide Lookup, Visits;
    var first := Visits(w, nodes[0], steps, fuel);
    var rest := VisitsAll(w, nodes[1..], steps, fuel);
    assert VisitsAll(w, nodes, steps, fuel) == first + rest;
    SeenWithin(w, nodes[0], steps, seen, fuel);
    RestIsFresh(first, rest, seen, Lookup(w, nodes[0], steps, seen, fuel).seen);
    if k == 0 { return seen; }
    before := PartIsFresh(w, nodes[1..], steps, Lookup(w, nodes[0], steps, seen, fuel).seen, fuel, k - 1);
  }

  // ----- readings

  /** Two readings settle every occurrence reached from here alike. */
  ghost predicate SameBelow(i: Reading, j: Reading, trail: seq<nat>) {
    && (forall t :: trail <= t ==> i.branch(t) == j.branch(t))
    && (forall t :: trail <= t ==> i.outside(t) == j.outside(t))
  }

  lemma SameBelowChild(i: Reading, j: Reading, trail: seq<nat>, k: nat)
    requires SameBelow(i, j, trail)
    ensures SameBelow(i, j, trail + [k])
  {
  }

  lemma {:induction false} SameReading(w: World, i: Reading, j: Reading, node: Node, steps: seq<Step>,
        trail: seq<nat>, n: nat)
    requires Closed(w) && ValidNode(w, node) && SameBelow(i, j, trail)
    ensures Has(AsWritten, w, i, node, steps, trail, n) <==> Has(AsWritten, w, j, node, steps, trail, n)
    decreases n, 1
  {
    SameBelowChild(i, j, trail, 0);
    if n > 0 && steps != [] {
      match node
      case OpaqueNode =>
      case DeclNode(key) =>
        match w.files[key.file].decls[key.name] {
          case Enum =>
          case Alias(target, _) => SameReading(w, i, j, TypeNode(key.file, target), steps, trail + [0], n - 1);
          case Interface(members, bases, _) =>
            if steps[0].MemberStep? {
              var own := FindMember(members, steps[0].name);
              if own.Some? { SameReadingMember(w, i, j, key.file, own.value, steps, trail, n - 1); }
              else { SameReadingParts(w, i, j, BaseNodes(w, key.file, bases), steps, trail, n - 1); }
            }
        }
      case TypeNode(file, t) =>
        SameReadingType(w, i, j, file, t, steps, trail, n);
    }
  }

  lemma {:induction false} SameReadingType(w: World, i: Reading, j: Reading, file: string, t: Type, steps: seq<Step>,
        trail: seq<nat>, n: nat)
    requires Closed(w) && file in w.files && SameBelow(i, j, trail) && n > 0 && steps != []
    ensures Has(AsWritten, w, i, TypeNode(file, t), steps, trail, n) <==>
              Has(AsWritten, w, j, TypeNode(file, t), steps, trail, n)
    decreases n, 0, 1
  {
    SameBelowChild(i, j, trail, 0);
    match t {
      case Literal(members) =>
        if steps[0].MemberStep? {
          var own := FindMember(members, steps[0].name);
          if own.Some? { SameReadingMember(w, i, j, file, own.value, steps, trail, n - 1); }
        }
      case Paren(inner) => SameReading(w, i, j, TypeNode(file, inner), steps, trail + [0], n - 1);
      case Intersection(parts) => SameReadingParts(w, i, j, PartNodes(file, parts), steps, trail, n - 1);
      case Union(parts) =>
        if parts != [] {
          var k := if i.branch(trail) < |parts| then i.branch(trail) else 0;
          SameBelowChild(i, j, trail, k);
          SameReading(w, i, j, TypeNode(file, parts[k]), steps, trail + [k], n - 1);
        }
      case Array(element) => SameReadingElement(w, i, j, file, element, steps, trail, n - 1);
      case Operator(_, operand) => SameReading(w, i, j, TypeNode(file, operand), steps, trail + [0], n - 1);
      case Indexed(subject, index) =>
        SameReading(w, i, j, TypeNode(file, subject), [MemberStep(index)] + steps, trail + [0], n - 1);
      case Ref(_, _, _) => SameReadingRef(w, i, j, file, t, steps, trail, n);
      case Other(_) =>
    }
  }

  lemma {:induction false} SameReadingRef(w: World, i: Reading, j: Reading, file: string, t: Type, steps: seq<Step>,
        trail: seq<nat>, n: nat)
    requires Closed(w) && file in w.files && SameBelow(i, j, trail) && n > 0 && steps != [] && t.Ref?
    ensures Has(AsWritten, w, i, TypeNode(file, t), steps, trail, n) <==>
              Has(AsWritten, w, j, TypeNode(file, t), steps, trail, n)
    decreases n, 0, 0
  {
    SameBelowChild(i, j, trail, 0);
    match ReferenceKind(AsWritten, w, file, t)
    case PassesThrough => SameReading(w, i, j, TypeNode(file, t.args[0]), steps, trail + [0], n - 1);
    case HoldsElements => SameReadingElement(w, i, j, file, t.args[0], steps, trail, n - 1);
    case OutOfReach =>
    case NamesType => SameReading(w, i, j, Resolve(w, file, t.name), steps, trail + [0], n - 1);
  }

  lemma SameReadingMember(w: World, i: Reading, j: Reading, file: string, m: Member, steps: seq<Step>,
        trail: seq<nat>, n: nat)
    requires Closed(w) && file in w.files && SameBelow(i, j, trail) && steps != []
    ensures HasBelow(AsWritten, w, i, file, m, steps, trail, n) <==> HasBelow(AsWritten, w, j, file, m, steps, trail, n)
    decreases n, 2
  {
    SameBelowChild(i, j, trail, 0);
    if |steps| > 1 && m.annotation.Some? {
      SameReading(w, i, j, TypeNode(file, m.annotation.value), steps[1..], trail + [0], n);
    }
  }

  lemma SameReadingElement(w: World, i: Reading, j: Reading, file: string, element: Type, steps: seq<Step>,
        trail: seq<nat>, n: nat)
    requires Closed(w) && file in w.files && SameBelow(i, j, trail) && steps != []
    ensures HasElement(AsWritten, w, i, file, element, steps, trail, n) <==>
              HasElement(AsWritten, w, j, file, element, steps, trail, n)
    decreases n, 2
  {
    SameBelowChild(i, j, trail, 0);
    if steps[0].ArrayStep? { SameReading(w, i, j, TypeNode(file, element), steps[1..], trail + [0], n); }
  }

  lemma SameReadingParts(w: World, i: Reading, j: Reading, nodes: seq<Node>, steps: seq<Step>, trail: seq<nat>, n: nat)
    requires Closed(w) && ValidNodes(w, nodes) && SameBelow(i, j, trail)
    ensures HasOneOf(AsWritten, w, i, nodes, steps, trail, n) <==> HasOneOf(AsWritten, w, j, nodes, steps, trail, n)
    decreases n, 2
  {
    hide Has, SameBelow;
    forall k | 0 <= k < |nodes|
      ensures Has(AsWritten, w, i, nodes[k], steps, trail + [k], n) <==>
          Has(AsWritten, w, j, nodes[k], steps, trail + [k], n)
    {
      SameBelowChild(i, j, trail, k);
      SameReading(w, i, j, nodes[k], steps, trail + [k], n);
    }
  }

  // ----- a reading that bears the answer out

  /** What the answer leaves open, one reading decides: `there` asks for one that has the path. */
  ghost predicate LeavesOpen(answer: Answer, there: bool) {
    answer != Overflow && answer != (if there then Missing else Found)
  }

  ghost predicate BearsOut(w: World, i: Reading, node: Node, steps: seq<Step>, trail: seq<nat>, there: bool)
    requires Closed(w) && ValidNode(w, node)
  {
    LeadsSomewhere(AsWritten, w, i, node, steps, trail) == there
  }

  ghost predicate BearsOutMember(w: World, i: Reading, file: string, m: Member, steps: seq<Step>, trail: seq<nat>,
        there: bool)
    requires Closed(w) && file in w.files && steps != []
  {
    (exists n :: HasBelow(AsWritten, w, i, file, m, steps, trail, n)) == there
  }

  ghost predicate BearsOutElement(w: World, i: Reading, file: string, element: Type, steps: seq<Step>,
        trail: seq<nat>, there: bool)
    requires Closed(w) && file in w.files && steps != []
  {
    (exists n :: HasElement(AsWritten, w, i, file, element, steps, trail, n)) == there
  }

  ghost predicate BearsOutParts(w: World, i: Reading, nodes: seq<Node>, steps: seq<Step>, trail: seq<nat>, there: bool)
    requires Closed(w) && ValidNodes(w, nodes)
  {
    (exists n :: HasOneOf(AsWritten, w, i, nodes, steps, trail, n)) == there
  }

  function Everything(there: bool): Reading {
    Reading(_ => 0, _ => there)
  }

  lemma AllOutside(w: World, node: Node, steps: seq<Step>, trail: seq<nat>, there: bool)
    requires Closed(w) && ValidNode(w, node)
    requires forall n: nat :: Has(AsWritten, w, Everything(there), node, steps, trail, n) <==> n > 0 && there
    ensures BearsOut(w, Everything(there), node, steps, trail, there)
  {
    assert Has(AsWritten, w, Everything(there), node, steps, trail, 1) <==> there;
  }

  /** A node that leads where one other does. */
  lemma OnlyThrough(w: World, i: Reading, node: Node, steps: seq<Step>, trail: seq<nat>, next: Node, rest: seq<Step>,
        k: nat, there: bool)
    requires Closed(w) && ValidNode(w, node) && ValidNode(w, next) && BearsOut(w, i, next, rest, trail + [k], there)
    requires forall n: nat :: Has(AsWritten, w, i, node, steps, trail, n) <==>
                n > 0 && Has(AsWritten, w, i, next, rest, trail + [k], n - 1)
    ensures BearsOut(w, i, node, steps, trail, there)
  {
    hide Has;
    if there {
      var n: nat :| Has(AsWritten, w, i, next, rest, trail + [k], n);
      assert Has(AsWritten, w, i, node, steps, trail, n + 1);
    }
  }

  lemma OnlyThroughMember(w: World, i: Reading, node: Node, steps: seq<Step>, trail: seq<nat>, file: string, m: Member,
        there: bool)
    requires Closed(w) && ValidNode(w, node) && file in w.files && steps != []
    requires BearsOutMember(w, i, file, m, steps, trail, there)
    requires forall n: nat :: Has(AsWritten, w, i, node, steps, trail, n) <==>
                n > 0 && HasBelow(AsWritten, w, i, file, m, steps, trail, n - 1)
    ensures BearsOut(w, i, node, steps, trail, there)
  {
    hide Has, HasBelow;
    if there {
      var n: nat :| HasBelow(AsWritten, w, i, file, m, steps, trail, n);
      assert Has(AsWritten, w, i, node, steps, trail, n + 1);
    }
  }

  lemma OnlyThroughElement(w: World, i: Reading, node: Node, steps: seq<Step>, trail: seq<nat>, file: string,
        element: Type, there: bool)
    requires Closed(w) && ValidNode(w, node) && file in w.files && steps != []
    requires BearsOutElement(w, i, file, element, steps, trail, there)
    requires forall n: nat :: Has(AsWritten, w, i, node, steps, trail, n) <==>
                n > 0 && HasElement(AsWritten, w, i, file, element, steps, trail, n - 1)
    ensures BearsOut(w, i, node, steps, trail, there)
  {
    hide Has, HasElement;
    if there {
      var n: nat :| HasElement(AsWritten, w, i, file, element, steps, trail, n);
      assert Has(AsWritten, w, i, node, steps, trail, n + 1);
    }
  }

  lemma OnlyThroughParts(w: World, i: Reading, node: Node, steps: seq<Step>, trail: seq<nat>, nodes: seq<Node>,
        there: bool)
    requires Closed(w) && ValidNode(w, node) && ValidNodes(w, nodes)
    requires BearsOutParts(w, i, nodes, steps, trail, there)
    requires forall n: nat :: Has(AsWritten, w, i, node, steps, trail, n) <==>
                n > 0 && HasOneOf(AsWritten, w, i, nodes, steps, trail, n - 1)
    ensures BearsOut(w, i, node, steps, trail, there)
  {
    hide Has, HasOneOf;
    if there {
      var n: nat :| HasOneOf(AsWritten, w, i, nodes, steps, trail, n);
      assert Has(AsWritten, w, i, node, steps, trail, n + 1);
    }
  }

  lemma SameBearsOut(w: World, i: Reading, j: Reading, node: Node, steps: seq<Step>, trail: seq<nat>, there: bool)
    requires Closed(w) && ValidNode(w, node) && SameBelow(i, j, trail) && BearsOut(w, i, node, steps, trail, there)
    ensures BearsOut(w, j, node, steps, trail, there)
  {
    hide Has, SameBelow;
    forall n ensures Has(AsWritten, w, i, node, steps, trail, n) <==> Has(AsWritten, w, j, node, steps, trail, n) {
      SameReading(w, i, j, node, steps, trail, n);
    }
  }

  lemma {:induction false} Witness(w: World, node: Node, steps: seq<Step>, seen: set<Visit>, trail: seq<nat>,
        fuel: nat, there: bool) returns (i: Reading)
    requires Closed(w) && ValidNode(w, node) && Fresh(Visits(w, node, steps, fuel), seen)
    requires LeavesOpen(Lookup(w, node, steps, seen, fuel).answer, there)
    ensures BearsOut(w, i, node, steps, trail, there)
    decreases fuel, 1
  {
    i := Everything(there);
    if steps == [] {
      AllOutside(w, node, steps, trail, there);
    } else {
      match node
      case OpaqueNode => AllOutside(w, node, steps, trail, there);
      case DeclNode(key) => i := WitnessDecl(w, key, steps, seen, trail, fuel, there);
      case TypeNode(file, t) => i := WitnessType(w, file, t, steps, seen, trail, fuel, there);
    }
  }

  lemma {:induction false} WitnessDecl(w: World, key: Key, steps: seq<Step>, seen: set<Visit>, trail: seq<nat>,
        fuel: nat, there: bool) returns (i: Reading)
    requires Closed(w) && Declares(w, key) && Fresh(Visits(w, DeclNode(key), steps, fuel), seen) && steps != []
    requires LeavesOpen(Lookup(w, DeclNode(key), steps, seen, fuel).answer, there)
    ensures BearsOut(w, i, DeclNode(key), steps, trail, there)
    decreases fuel, 0
  {
    i := Everything(there);
    var node, visit := DeclNode(key), Visit(key, |steps|);
    match w.files[key.file].decls[key.name]
    case Enum => AllOutside(w, node, steps, trail, there);
    case Alias(target, _) =>
      var next := TypeNode(key.file, target);
      FreshInside(Visits(w, next, steps, fuel - 1), visit, seen);
      i := Witness(w, next, steps, seen + {visit}, trail + [0], fuel - 1, there);
      OnlyThrough(w, i, node, steps, trail, next, steps, 0, there);
    case Interface(_, _, _) => i := WitnessInterface(w, key, steps, seen, trail, fuel, there);
  }

  lemma {:induction false} WitnessInterface(w: World, key: Key, steps: seq<Step>, seen: set<Visit>, trail: seq<nat>,
        fuel: nat, there: bool) returns (i: Reading)
    requires Closed(w) && Declares(w, key) && Fresh(Visits(w, DeclNode(key), steps, fuel), seen) && steps != []
    requires LeavesOpen(Lookup(w, DeclNode(key), steps, seen, fuel).answer, there)
    requires w.files[key.file].decls[key.name].Interface?
    ensures BearsOut(w, i, DeclNode(key), steps, trail, there)
    decreases fuel, 0, 0
  {
    i := Everything(there);
    var node, visit := DeclNode(key), Visit(key, |steps|);
    var Interface(members, bases, _) := w.files[key.file].decls[key.name];
    if steps[0].ArrayStep? {
      AllOutside(w, node, steps, trail, there);
    } else {
      var own := FindMember(members, steps[0].name);
      if own.Some? {
        FreshInside(VisitsBelow(w, key.file, own.value.annotation, steps, fuel - 1), visit, seen);
        i := WitnessMember(w, key.file, own.value, steps, seen + {visit}, trail, fuel - 1, there);
        OnlyThroughMember(w, i, node, steps, trail, key.file, own.value, there);
      } else {
        var nodes := BaseNodes(w, key.file, bases);
        FreshInside(VisitsAll(w, nodes, steps, fuel - 1), visit, seen);
        i := WitnessParts(w, nodes, steps, seen + {visit}, trail, fuel - 1, there);
        OnlyThroughParts(w, i, node, steps, trail, nodes, there);
      }
    }
  }

  lemma FreshInside(visits: multiset<Visit>, visit: Visit, seen: set<Visit>)
    requires Fresh(multiset{visit} + visits, seen)
    ensures visit !in seen && Fresh(visits, seen + {visit})
  {
    assert visit in multiset{visit} + visits;
    forall v | v in visits ensures visits[v] == 1 && v !in seen + {visit} {
      assert v in multiset{visit} + visits;
    }
  }

  lemma {:induction false} WitnessType(w: World, file: string, t: Type, steps: seq<Step>, seen: set<Visit>,
        trail: seq<nat>, fuel: nat, there: bool) returns (i: Reading)
    requires Closed(w) && file in w.files && Fresh(Visits(w, TypeNode(file, t), steps, fuel), seen) && steps != []
    requires LeavesOpen(Lookup(w, TypeNode(file, t), steps, seen, fuel).answer, there)
    ensures BearsOut(w, i, TypeNode(file, t), steps, trail, there)
    decreases fuel, 0
  {
    i := Everything(there);
    var node := TypeNode(file, t);
    match t {
      case Literal(members) =>
        var own := if steps[0].ArrayStep? then None else FindMember(members, steps[0].name);
        if own.Some? {
          i := WitnessMember(w, file, own.value, steps, seen, trail, fuel - 1, there);
          OnlyThroughMember(w, i, node, steps, trail, file, own.value, there);
        } else {
          AllOutside(w, node, steps, trail, there);
        }
      case Paren(_) => i := WitnessInner(w, file, t, steps, seen, trail, fuel, there);
      case Intersection(parts) =>
        i := WitnessParts(w, PartNodes(file, parts), steps, seen, trail, fuel - 1, there);
        OnlyThroughParts(w, i, node, steps, trail, PartNodes(file, parts), there);
      case Union(parts) => i := WitnessUnion(w, file, parts, steps, seen, trail, fuel, there);
      case Array(element) =>
        i := WitnessElement(w, file, element, steps, seen, trail, fuel - 1, there);
        OnlyThroughElement(w, i, node, steps, trail, file, element, there);
      case Operator(_, _) => i := WitnessInner(w, file, t, steps, seen, trail, fuel, there);
      case Indexed(_, _) => i := WitnessInner(w, file, t, steps, seen, trail, fuel, there);
      case Ref(_, _, _) => i := WitnessRef(w, file, t, steps, seen, trail, fuel, there);
      case Other(_) => AllOutside(w, node, steps, trail, there);
    }
  }

  lemma {:induction false} WitnessInner(w: World, file: string, t: Type, steps: seq<Step>, seen: set<Visit>,
        trail: seq<nat>, fuel: nat, there: bool) returns (i: Reading)
    requires Closed(w) && file in w.files && Fresh(Visits(w, TypeNode(file, t), steps, fuel), seen) && steps != []
    requires LeavesOpen(Lookup(w, TypeNode(file, t), steps, seen, fuel).answer, there)
    requires t.Paren? || t.Operator? || t.Indexed?
    ensures BearsOut(w, i, TypeNode(file, t), steps, trail, there)
    decreases fuel, 0, 0
  {
    var inner := TypeNode(file, if t.Paren? then t.inner else if t.Operator? then t.operand else t.subject);
    var rest := if t.Indexed? then [MemberStep(t.index)] + steps else steps;
    i := Witness(w, inner, rest, seen, trail + [0], fuel - 1, there);
    OnlyThrough(w, i, TypeNode(file, t), steps, trail, inner, rest, 0, there);
  }

  lemma {:induction false} WitnessRef(w: World, file: string, t: Type, steps: seq<Step>, seen: set<Visit>,
        trail: seq<nat>, fuel: nat, there: bool) returns (i: Reading)
    requires Closed(w) && file in w.files && Fresh(Visits(w, TypeNode(file, t), steps, fuel), seen) && steps != []
    requires LeavesOpen(Lookup(w, TypeNode(file, t), steps, seen, fuel).answer, there) && t.Ref?
    ensures BearsOut(w, i, TypeNode(file, t), steps, trail, there)
    decreases fuel, 0, 0
  {
    i := Everything(there);
    var node := TypeNode(file, t);
    match ReferenceKind(AsWritten, w, file, t)
    case PassesThrough =>
      i := Witness(w, TypeNode(file, t.args[0]), steps, seen, trail + [0], fuel - 1, there);
      OnlyThrough(w, i, node, steps, trail, TypeNode(file, t.args[0]), steps, 0, there);
    case HoldsElements =>
      i := WitnessElement(w, file, t.args[0], steps, seen, trail, fuel - 1, there);
      OnlyThroughElement(w, i, node, steps, trail, file, t.args[0], there);
    case OutOfReach => AllOutside(w, node, steps, trail, there);
    case NamesType =>
      i := Witness(w, Resolve(w, file, t.name), steps, seen, trail + [0], fuel - 1, there);
      OnlyThrough(w, i, node, steps, trail, Resolve(w, file, t.name), steps, 0, there);
  }

  lemma WitnessMember(w: World, file: string, m: Member, steps: seq<Step>, seen: set<Visit>, trail: seq<nat>,
        fuel: nat, there: bool) returns (i: Reading)
    requires Closed(w) && file in w.files && steps != []
    requires Fresh(VisitsBelow(w, file, m.annotation, steps, fuel), seen)
    requires LeavesOpen(IntoMember(w, file, m, steps, seen, fuel).answer, there)
    ensures BearsOutMember(w, i, file, m, steps, trail, there)
    decreases fuel, 2
  {
    i := Everything(there);
    if |steps| > 1 && m.annotation.Some? {
      i := Witness(w, TypeNode(file, m.annotation.value), steps[1..], seen, trail + [0], fuel, there);
      hide Has;
      assert forall n: nat :: HasBelow(AsWritten, w, i, file, m, steps, trail, n) <==>
            Has(AsWritten, w, i, TypeNode(file, m.annotation.value), steps[1..], trail + [0], n);
    } else {
      assert HasBelow(AsWritten, w, i, file, m, steps, trail, 0) <==> there;
    }
  }

  lemma WitnessElement(w: World, file: string, element: Type, steps: seq<Step>, seen: set<Visit>, trail: seq<nat>,
        fuel: nat, there: bool) returns (i: Reading)
    requires Closed(w) && file in w.files && steps != []
    requires Fresh(VisitsElement(w, file, element, steps, fuel), seen)
    requires LeavesOpen(IntoElement(w, file, element, steps, seen, fuel).answer, there)
    ensures BearsOutElement(w, i, file, element, steps, trail, there)
    decreases fuel, 2
  {
    i := Everything(there);
    if steps[0].ArrayStep? {
      i := Witness(w, TypeNode(file, element), steps[1..], seen, trail + [0], fuel, there);
      hide Has;
      assert forall n: nat :: HasElement(AsWritten, w, i, file, element, steps, trail, n) <==>
            Has(AsWritten, w, i, TypeNode(file, element), steps[1..], trail + [0], n);
    } else {
      assert HasElement(AsWritten, w, i, file, element, steps, trail, 0) <==> there;
    }
  }

  /** Like `j`, but for the union met at the end of `trail`. */
  ghost function Settled(j: Reading, trail: seq<nat>, k: nat): (i: Reading)
    ensures i.branch(trail) == k && forall m :: SameBelow(j, i, trail + [m])
  {
    Reading(t => BranchOf(j, trail, k, t), j.outside)
  }

  ghost function BranchOf(j: Reading, trail: seq<nat>, k: nat, t: seq<nat>): nat {
    if t == trail then k else j.branch(t)
  }

  /** A union is settled for a branch that the answer leaves open. */
  lemma WitnessUnion(w: World, file: string, parts: seq<Type>, steps: seq<Step>, seen: set<Visit>, trail: seq<nat>,
        fuel: nat, there: bool) returns (i: Reading)
    requires Closed(w) && file in w.files && Fresh(Visits(w, TypeNode(file, Union(parts)), steps, fuel), seen)
    requires LeavesOpen(Lookup(w, TypeNode(file, Union(parts)), steps, seen, fuel).answer, there) && steps != []
    ensures BearsOut(w, i, TypeNode(file, Union(parts)), steps, trail, there)
    decreases fuel, 0, 0
  {
    i := Everything(there);
    var node, nodes := TypeNode(file, Union(parts)), PartNodes(file, parts);
    var answers := LookupAll(w, nodes, steps, seen, fuel - 1).answers;
    if parts == [] {
      AllOutside(w, node, steps, trail, there);
    } else {
      var k := OpenBranch(answers, there);
      var before := PartIsFresh(w, nodes, steps, seen, fuel - 1, k);
      var j := Witness(w, nodes[k], steps, before, trail + [k], fuel - 1, there);
      i := Settled(j, trail, k);
      SettledBearsOut(w, i, j, file, parts, steps, trail, k, there);
    }
  }

  lemma OpenBranch(answers: seq<Answer>, there: bool) returns (k: nat)
    requires answers != [] && LeavesOpen(Agree(answers), there)
    ensures k < |answers| && LeavesOpen(answers[k], there)
  {
    assert answers[0] in answers;
    k :| 0 <= k < |answers| && LeavesOpen(answers[k], there);
  }

  lemma SettledBearsOut(w: World, i: Reading, j: Reading, file: string, parts: seq<Type>, steps: seq<Step>,
        trail: seq<nat>, k: nat, there: bool)
    requires Closed(w) && file in w.files && k < |parts| && steps != [] && i == Settled(j, trail, k)
    requires BearsOut(w, j, TypeNode(file, parts[k]), steps, trail + [k], there)
    ensures BearsOut(w, i, TypeNode(file, Union(parts)), steps, trail, there)
  {
    var node, branch := TypeNode(file, Union(parts)), TypeNode(file, parts[k]);
    SameBearsOut(w, j, i, branch, steps, trail + [k], there);
    OnlyThrough(w, i, node, steps, trail, branch, steps, k, there);
  }

  /** One part that has the path suffices; all must lack it. */
  lemma WitnessParts(w: World, nodes: seq<Node>, steps: seq<Step>, seen: set<Visit>, trail: seq<nat>, fuel: nat,
        there: bool) returns (i: Reading)
    requires Closed(w) && ValidNodes(w, nodes) && Fresh(VisitsAll(w, nodes, steps, fuel), seen)
    requires LeavesOpen(Combine(LookupAll(w, nodes, steps, seen, fuel).answers), there)
    ensures BearsOutParts(w, i, nodes, steps, trail, there)
    decreases fuel, 3
  {
    hide Has, Lookup, Visits;
    var answers := LookupAll(w, nodes, steps, seen, fuel).answers;
    if there {
      var k :| 0 <= k < |answers| && LeavesOpen(answers[k], true);
      var before := PartIsFresh(w, nodes, steps, seen, fuel, k);
      i := Witness(w, nodes[k], steps, before, trail + [k], fuel, true);
      var n: nat :| Has(AsWritten, w, i, nodes[k], steps, trail + [k], n);
      assert HasOneOf(AsWritten, w, i, nodes, steps, trail, n);
    } else {
      assert forall k :: 0 <= k < |answers| ==> answers[k] in answers;
      i := WitnessNone(w, nodes, steps, seen, trail, fuel, 0);
      forall n: nat ensures !HasOneOf(AsWritten, w, i, nodes, steps, trail, n) {
        forall k | 0 <= k < |nodes| ensures !Has(AsWritten, w, i, nodes[k], steps, trail + [k], n) {
          assert BearsOut(w, i, nodes[k], steps, trail + [0 + k], false);
        }
      }
    }
  }

  /** Readings of the parts join into one, since no part reaches into another. */
  lemma {:induction false} WitnessNone(w: World, nodes: seq<Node>, steps: seq<Step>, seen: set<Visit>,
        trail: seq<nat>, fuel: nat, from: nat) returns (i: Reading)
    requires Closed(w) && ValidNodes(w, nodes) && Fresh(VisitsAll(w, nodes, steps, fuel), seen)
    requires forall k :: 0 <= k < |nodes| ==>
                LeavesOpen(LookupAll(w, nodes, steps, seen, fuel).answers[k], false)
    ensures forall k :: 0 <= k < |nodes| ==> BearsOut(w, i, nodes[k], steps, trail + [from + k], false)
    decreases fuel, 2, |nodes|
  {
    hide Has, Lookup, Visits, LeavesOpen, BearsOut;
    i := Everything(false);
    if nodes != [] {
      var all := LookupAll(w, nodes, steps, seen, fuel);
      var next := Lookup(w, nodes[0], steps, seen, fuel).seen;
      var rest := LookupAll(w, nodes[1..], steps, next, fuel);
      SeenWithin(w, nodes[0], steps, seen, fuel);
      RestIsFresh(Visits(w, nodes[0], steps, fuel), VisitsAll(w, nodes[1..], steps, fuel), seen, next);
      assert all.answers[0] == Lookup(w, nodes[0], steps, seen, fuel).answer;
      var first := Witness(w, nodes[0], steps, seen, trail + [from], fuel, false);
      assert forall k :: 0 <= k < |rest.answers| ==> rest.answers[k] == all.answers[k + 1];
      var others := WitnessNone(w, nodes[1..], steps, next, trail, fuel, from + 1);
      i := Joined(first, others, trail, from);
      JoinedBearsOut(w, first, others, nodes, steps, trail, from);
    }
  }

  lemma JoinedBearsOut(w: World, first: Reading, others: Reading, nodes: seq<Node>, steps: seq<Step>, trail: seq<nat>,
        from: nat)
    requires Closed(w) && ValidNodes(w, nodes) && nodes != []
    requires BearsOut(w, first, nodes[0], steps, trail + [from], false)
    requires forall k :: 0 <= k < |nodes| - 1 ==>
                BearsOut(w, others, nodes[1..][k], steps, trail + [from + 1 + k], false)
    ensures forall k :: 0 <= k < |nodes| ==>
                BearsOut(w, Joined(first, others, trail, from), nodes[k], steps, trail + [from + k], false)
  {
    hide BearsOut;
    var i := Joined(first, others, trail, from);
    SameBearsOut(w, first, i, nodes[0], steps, trail + [from], false);
    forall k | 1 <= k < |nodes| ensures BearsOut(w, i, nodes[k], steps, trail + [from + k], false) {
      assert nodes[1..][k - 1] == nodes[k] && from + 1 + (k - 1) == from + k;
      SameBearsOut(w, others, i, nodes[k], steps, trail + [from + k], false);
    }
  }

  predicate TurnsTo(t: seq<nat>, trail: seq<nat>, k: nat) {
    |t| > |trail| && t[|trail|] == k
  }

  /** Settles as `first` what lies below the `k`-th part, and as `others` the rest. */
  ghost function Joined(first: Reading, others: Reading, trail: seq<nat>, k: nat): (i: Reading)
    ensures SameBelow(first, i, trail + [k])
    ensures forall m :: m != k ==> SameBelow(others, i, trail + [m])
  {
    assert forall t, m :: trail + [m] <= t ==> TurnsTo(t, trail, m) by {
      forall t, m | trail + [m] <= t ensures TurnsTo(t, trail, m) {
        assert t[|trail|] == (trail + [m])[|trail|];
      }
    }
    Reading(t => (if TurnsTo(t, trail, k) then first else others).branch(t),
            t => (if TurnsTo(t, trail, k) then first else others).outside(t))
  }

  // ----- exact answers

  /** The lookup returns, and the path meets no declaration twice with equally many steps. */
  ghost predicate IsDecided(w: World, node: Node, steps: seq<Step>, fuel: nat)
    requires Closed(w) && ValidNode(w, node)
  {
    MeetsOnce(w, node, steps) && Lookup(w, node, steps, {}, fuel).answer != Overflow
  }

  ghost predicate IsDecidedAsMeant(w: World, node: Node, steps: seq<Step>, fuel: nat)
    requires Closed(w) && ValidNode(w, node)
  {
    IsDecided(w, node, steps, fuel) && Legible(w, node, steps)
  }

  /** Where no declaration is met twice with equally many steps, an answer is exact: taken
      by the text of names, `Found` says that every reading has the path, `Missing` that none
      has, `Unknown` that some has and some has not. So it is of what is meant, where that is
      written. */
  lemma LookupIsExact(w: World, node: Node, steps: seq<Step>, fuel: nat)
    requires Closed(w) && ValidNode(w, node) && IsDecided(w, node, steps, fuel)
    ensures var answer := Lookup(w, node, steps, {}, fuel).answer;
            && (answer == Found <==> AlwaysThere(AsWritten, w, node, steps))
            && (answer == Missing <==> NeverThere(AsWritten, w, node, steps))
            && (Legible(w, node, steps) ==>
                  && (answer == Found <==> AlwaysThere(AsMeant, w, node, steps))
                  && (answer == Missing <==> NeverThere(AsMeant, w, node, steps)))
  {
    hide Legible, LeadsSomewhere, Lookup, Visits;
    SoundAsWritten(w, node, steps, {}, fuel);
    var answer := Lookup(w, node, steps, {}, fuel).answer;
    OnceIsFresh(Visits(w, node, steps, fuel));
    if answer != Found { var i := Witness(w, node, steps, {}, [], fuel, false); }
    if answer != Missing { var i := Witness(w, node, steps, {}, [], fuel, true); }
    if Legible(w, node, steps) {
      forall i, trail
        ensures LeadsSomewhere(AsWritten, w, i, node, steps, trail) <==>
            LeadsSomewhere(AsMeant, w, i, node, steps, trail)
      {
        LegibleViewsAgree(w, i, node, steps, trail);
      }
    }
  }
}
