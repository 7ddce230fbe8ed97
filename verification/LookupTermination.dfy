/** When the type lookup returns. */
module LookupTermination {
  import opened Wrappers
  import opened ConfigTypes
  import opened TypeLookup

  // The `seen` set of the lookup cuts off a declaration entered twice with equally many
  // steps, so only an indexed access that keeps adding steps escapes it.

  // ----- the fuel does not matter once it suffices

  lemma {:induction false} FuelIrrelevant(w: World, node: Node, steps: seq<Step>, seen: set<Visit>, fuel: nat,
        more: nat)
    requires Closed(w) && ValidNode(w, node) && fuel <= more
    requires Lookup(w, node, steps, seen, fuel).answer != Overflow
    ensures Lookup(w, node, steps, seen, more) == Lookup(w, node, steps, seen, fuel)
    decreases fuel, 1
  {
    if steps != [] {
      match node
      case OpaqueNode =>
      case DeclNode(key) =>
        var inside := seen + {Visit(key, |steps|)};
        match w.files[key.file].decls[key.name] {
          case Enum =>
          case Alias(target, _) =>
            if Visit(key, |steps|) !in seen {
              FuelIrrelevant(w, TypeNode(key.file, target), steps, inside, fuel - 1, more - 1);
            }
          case Interface(members, bases, _) =>
            if Visit(key, |steps|) !in seen && steps[0].MemberStep? {
              var own := FindMember(members, steps[0].name);
              if own.Some? {
                if |steps| > 1 && own.value.annotation.Some? {
                  FuelIrrelevant(w, TypeNode(key.file, own.value.annotation.value), steps[1..], inside, fuel - 1,
                    more - 1);
                }
              } else if bases != [] {
                FuelIrrelevantAll(w, BaseNodes(w, key.file, bases), steps, inside, fuel - 1, more - 1);
              }
            }
        }
      case TypeNode(file, t) =>
        FuelIrrelevantType(w, file, t, steps, seen, fuel, more);
    }
  }

  lemma {:induction false} FuelIrrelevantType(w: World, file: string, t: Type, steps: seq<Step>, seen: set<Visit>,
        fuel: nat, more: nat)
    requires Closed(w) && file in w.files && fuel <= more && steps != []
    requires Lookup(w, TypeNode(file, t), steps, seen, fuel).answer != Overflow
    ensures Lookup(w, TypeNode(file, t), steps, seen, more) == Lookup(w, TypeNode(file, t), steps, seen, fuel)
    decreases fuel, 0
  {
    match t {
      case Literal(members) =>
        if steps[0].MemberStep? && |steps| > 1 {
          var own := FindMember(members, steps[0].name);
          if own.Some? && own.value.annotation.Some? {
            FuelIrrelevant(w, TypeNode(file, own.value.annotation.value), steps[1..], seen, fuel - 1, more - 1);
          }
        }
      case Paren(inner) => FuelIrrelevant(w, TypeNode(file, inner), steps, seen, fuel - 1, more - 1);
      case Intersection(parts) => FuelIrrelevantAll(w, PartNodes(file, parts), steps, seen, fuel - 1, more - 1);
      case Union(parts) => FuelIrrelevantAll(w, PartNodes(file, parts), steps, seen, fuel - 1, more - 1);
      case Array(element) =>
        if steps[0].ArrayStep? { FuelIrrelevant(w, TypeNode(file, element), steps[1..], seen, fuel - 1, more - 1); }
      case Operator(_, operand) => FuelIrrelevant(w, TypeNode(file, operand), steps, seen, fuel - 1, more - 1);
      case Indexed(subject, index) =>
        FuelIrrelevant(w, TypeNode(file, subject), [MemberStep(index)] + steps, seen, fuel - 1, more - 1);
      case Ref(_, _, _) => FuelIrrelevantRef(w, file, t, steps, seen, fuel, more);
      case Other(_) =>
    }
  }

  lemma {:induction false} FuelIrrelevantRef(w: World, file: string, t: Type, steps: seq<Step>, seen: set<Visit>,
        fuel: nat, more: nat)
    requires Closed(w) && file in w.files && fuel <= more && steps != [] && t.Ref?
    requires Lookup(w, TypeNode(file, t), steps, seen, fuel).answer != Overflow
    ensures Lookup(w, TypeNode(file, t), steps, seen, more) == Lookup(w, TypeNode(file, t), steps, seen, fuel)
    decreases fuel, 0, 0
  {
    if t.name in PASSTHROUGH_WRAPPERS && t.args != [] {
      FuelIrrelevant(w, TypeNode(file, t.args[0]), steps, seen, fuel - 1, more - 1);
    } else if t.name in ARRAY_WRAPPERS && t.args != [] {
      if steps[0].ArrayStep? { FuelIrrelevant(w, TypeNode(file, t.args[0]), steps[1..], seen, fuel - 1, more - 1); }
    } else if !t.qualified {
      FuelIrrelevant(w, Resolve(w, file, t.name), steps, seen, fuel - 1, more - 1);
    }
  }

  lemma {:induction false} FuelIrrelevantAll(w: World, nodes: seq<Node>, steps: seq<Step>, seen: set<Visit>, fuel: nat,
        more: nat)
    requires Closed(w) && ValidNodes(w, nodes) && fuel <= more
    requires Overflow !in LookupAll(w, nodes, steps, seen, fuel).answers
    ensures LookupAll(w, nodes, steps, seen, more) == LookupAll(w, nodes, steps, seen, fuel)
    decreases fuel, 1 + |nodes|
  {
    if nodes != [] {
      hide Lookup;
      var r := LookupAll(w, nodes, steps, seen, fuel);
      assert r.answers[0] in r.answers;
      FuelIrrelevant(w, nodes[0], steps, seen, fuel, more);
      var rest := LookupAll(w, nodes[1..], steps, Lookup(w, nodes[0], steps, seen, fuel).seen, fuel);
      assert forall a :: a in rest.answers ==> a in r.answers;
      FuelIrrelevantAll(w, nodes[1..], steps, Lookup(w, nodes[0], steps, seen, fuel).seen, fuel, more);
    }
  }

  // ----- walks along aliases

  /** Where the walk goes on from a node that leads to one other with at least as many
      steps: an alias, parentheses, a type operator, a pass-through wrapper, an indexed access
      or a plain reference. */
  ghost function Onward(w: World, node: Node): (next: Option<Node>)
    requires Closed(w) && ValidNode(w, node)
    ensures next.Some? ==> ValidNode(w, next.value)
  {
    match node
    case OpaqueNode => None
    case DeclNode(key) =>
      var decl := w.files[key.file].decls[key.name];
      if decl.Alias? then Some(TypeNode(key.file, decl.target)) else None
    case TypeNode(file, t) =>
      match t
      case Paren(inner) => Some(TypeNode(file, inner))
      case Operator(_, operand) => Some(TypeNode(file, operand))
      case Indexed(subject, _) => Some(TypeNode(file, subject))
      case Ref(name, qualified, args) =>
        if name in PASSTHROUGH_WRAPPERS && args != [] then Some(TypeNode(file, args[0]))
        else if (name in ARRAY_WRAPPERS && args != []) || qualified then None
        else Some(Resolve(w, file, name))
      case _ => None
  }

  /** The node after `n` moves, as long as the walk goes on. */
  ghost function After(w: World, node: Node, n: nat): (r: Option<Node>)
    requires Closed(w) && ValidNode(w, node)
    ensures r.Some? ==> ValidNode(w, r.value)
  {
    if n == 0 then Some(node)
    else
      var before := After(w, node, n - 1);
      if before.Some? then Onward(w, before.value) else None
  }

  predicate AddsStep(node: Node) {
    node.TypeNode? && node.t.Indexed?
  }

  /** The steps added by the indexed accesses among the first `n` moves. */
  ghost function Gained(w: World, node: Node, n: nat): nat
    requires Closed(w) && ValidNode(w, node)
  {
    if n == 0 then 0
    else
      var before := After(w, node, n - 1);
      Gained(w, node, n - 1) + if before.Some? && AddsStep(before.value) then 1 else 0
  }

  /** The walk passes aliases only, and never comes to an end of them. */
  ghost predicate AliasesOnly(w: World, node: Node)
    requires Closed(w) && ValidNode(w, node)
  {
    forall n: nat :: After(w, node, n).Some?
  }

  ghost predicate SameVisit(w: World, node: Node, i: nat, j: nat)
    requires Closed(w) && ValidNode(w, node)
  {
    && After(w, node, i).Some? && After(w, node, i).value.DeclNode?
    && After(w, node, i) == After(w, node, j) && Gained(w, node, i) == Gained(w, node, j)
  }

  /** Some alias comes again, with no indexed access in between. */
  ghost predicate Recurs(w: World, node: Node)
    requires Closed(w) && ValidNode(w, node)
  {
    exists i: nat, j: nat :: i < j && SameVisit(w, node, i, j)
  }

  ghost predicate Returns(w: World, node: Node, steps: seq<Step>)
    requires Closed(w) && ValidNode(w, node)
  {
    exists fuel: nat :: Lookup(w, node, steps, {}, fuel).answer != Overflow
  }

  function VisitedAt(node: Node, steps: seq<Step>, seen: set<Visit>): set<Visit> {
    if node.DeclNode? then seen + {Visit(node.key, |steps|)} else seen
  }

  function StepsAt(node: Node, steps: seq<Step>): (longer: seq<Step>)
    ensures |longer| == |steps| + if AddsStep(node) then 1 else 0
  {
    if AddsStep(node) then [MemberStep(node.t.index)] + steps else steps
  }

  /** One move of the lookup: cut off at a visit seen before, and on along the aliases otherwise. */
  lemma OnwardStep(w: World, node: Node, steps: seq<Step>, seen: set<Visit>, fuel: nat)
    requires Closed(w) && ValidNode(w, node) && Onward(w, node).Some? && steps != [] && fuel > 0
    ensures Lookup(w, node, steps, seen, fuel) ==
              if node.DeclNode? && Visit(node.key, |steps|) in seen then Result(Unknown, seen)
              else Lookup(w, Onward(w, node).value, StepsAt(node, steps), VisitedAt(node, steps, seen), fuel - 1)
  {
  }

  ghost predicate VisitOf(w: World, node: Node, length: nat, i: nat, visit: Visit)
    requires Closed(w) && ValidNode(w, node)
  {
    After(w, node, i) == Some(DeclNode(visit.key)) && visit.steps == length + Gained(w, node, i)
  }

  /** What was seen before the `k`-th move. */
  ghost predicate SeenAlong(w: World, node: Node, length: nat, k: nat, seen: set<Visit>)
    requires Closed(w) && ValidNode(w, node)
  {
    forall v | v in seen :: exists i: nat :: i < k && VisitOf(w, node, length, i, v)
  }

  lemma OnwardNext(w: World, node: Node, k: nat) returns (at: Node, next: Node)
    requires Closed(w) && ValidNode(w, node) && AliasesOnly(w, node)
    ensures After(w, node, k) == Some(at) && After(w, node, k + 1) == Some(next)
    ensures ValidNode(w, at) && Onward(w, at) == Some(next)
    ensures Gained(w, node, k + 1) == Gained(w, node, k) + if AddsStep(at) then 1 else 0
  {
    at, next := After(w, node, k).value, After(w, node, k + 1).value;
  }

  lemma {:induction false} ChainOverflows(w: World, node: Node, length: nat, k: nat, steps: seq<Step>, seen: set<Visit>,
      fuel: nat)
    requires Closed(w) && ValidNode(w, node) && AliasesOnly(w, node) && !Recurs(w, node) && length > 0
    requires |steps| == length + Gained(w, node, k) && SeenAlong(w, node, length, k, seen)
    ensures After(w, node, k).Some? && Lookup(w, After(w, node, k).value, steps, seen, fuel).answer == Overflow
    decreases fuel
  {
    var at := After(w, node, k).value;
    if fuel > 0 {
      assert After(w, node, k + 1).Some?;
      OnwardStep(w, at, steps, seen, fuel);
      hide Lookup, Onward;
      if at.DeclNode? {
        var visit := Visit(at.key, |steps|);
        assert VisitOf(w, node, length, k, visit);
        if visit in seen {
          var i: nat :| i < k && VisitOf(w, node, length, i, visit);
          assert SameVisit(w, node, i, k);
        }
      }
      ChainOverflows(w, node, length, k + 1, StepsAt(at, steps), VisitedAt(at, steps, seen), fuel - 1);
    }
  }

  lemma {:induction false} ChainReturns(w: World, node: Node, length: nat, i: nat, j: nat, k: nat, steps: seq<Step>,
      seen: set<Visit>)
    requires Closed(w) && ValidNode(w, node) && AliasesOnly(w, node) && i < j && SameVisit(w, node, i, j) && k <= j
    requires length > 0 && |steps| == length + Gained(w, node, k)
    requires k > i ==> Visit(After(w, node, i).value.key, length + Gained(w, node, i)) in seen
    ensures After(w, node, k).Some? && Lookup(w, After(w, node, k).value, steps, seen, j - k + 1).answer != Overflow
    decreases j - k
  {
    hide Lookup, Onward, After, Gained;
    var at, next := OnwardNext(w, node, k);
    OnwardStep(w, at, steps, seen, j - k + 1);
    if k < j && !(at.DeclNode? && Visit(at.key, |steps|) in seen) {
      ChainReturns(w, node, length, i, j, k + 1, StepsAt(at, steps), VisitedAt(at, steps, seen));
    }
  }

  /** A walk that passes aliases only returns, whatever the path, exactly when some alias
      comes again with equally many steps. */
  lemma AliasesReturnIff(w: World, node: Node, steps: seq<Step>)
    requires Closed(w) && ValidNode(w, node) && AliasesOnly(w, node) && steps != []
    ensures Returns(w, node, steps) <==> Recurs(w, node)
  {
    hide Lookup, Onward;
    assert After(w, node, 0) == Some(node) && Gained(w, node, 0) == 0;
    if Recurs(w, node) {
      var i: nat, j: nat :| i < j && SameVisit(w, node, i, j);
      ChainReturns(w, node, |steps|, i, j, 0, steps, {});
    } else {
      forall fuel: nat ensures Lookup(w, node, steps, {}, fuel).answer == Overflow {
        ChainOverflows(w, node, |steps|, 0, steps, {}, fuel);
      }
    }
  }

  lemma {:induction false} SelfIndexTurns(w: World, key: Key, index: string, others: seq<Type>, turns: nat)
    requires Closed(w) && Declares(w, key)
    requires w.files[key.file].decls[key.name] == Alias(Indexed(Ref(key.name, false, []), index), others)
    ensures var reference := Ref(key.name, false, []);
            && After(w, DeclNode(key), 3 * turns) == Some(DeclNode(key))
            && After(w, DeclNode(key), 3 * turns + 1) == Some(TypeNode(key.file, Indexed(reference, index)))
            && After(w, DeclNode(key), 3 * turns + 2) == Some(TypeNode(key.file, reference))
            && Gained(w, DeclNode(key), 3 * turns) == turns
  {
    var node := DeclNode(key);
    if turns > 0 {
      SelfIndexTurns(w, key, index, others, turns - 1);
      assert Resolve(w, key.file, key.name) == node;
      assert After(w, node, 3 * turns) == Onward(w, TypeNode(key.file, Ref(key.name, false, [])));
      assert Gained(w, node, 3 * turns - 1) == turns;
    }
    assert After(w, node, 3 * turns + 1) == Onward(w, node);
  }

  /** `type A = A['x']` outruns every stack, whatever the path. */
  lemma SelfIndexNeverReturns(w: World, key: Key, index: string, others: seq<Type>, steps: seq<Step>)
    requires Closed(w) && Declares(w, key) && steps != []
    requires w.files[key.file].decls[key.name] == Alias(Indexed(Ref(key.name, false, []), index), others)
    ensures !Returns(w, DeclNode(key), steps)
  {
    hide Lookup, Onward, After, Gained;
    var node := DeclNode(key);
    forall n: nat
      ensures After(w, node, n).Some?
          && (After(w, node, n).value.DeclNode? ==> Gained(w, node, n) == n / 3 && n % 3 == 0)
    {
      SelfIndexTurns(w, key, index, others, n / 3);
    }
    AliasesReturnIff(w, node, steps);
  }
}
