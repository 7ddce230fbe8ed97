/** Lookup of a key path in a type. */
module TypeLookup {
  import opened Wrappers
  import opened ConfigTypes

  // The answers are three: `Found` and `Missing` are promises about every reading of the
  // type, `Unknown` is none.

  datatype Step = MemberStep(name: string) | ArrayStep

  /** `Overflow` stands for the exhausted call stack of a walk that does not return. */
  datatype Answer = Found | Missing | Unknown | Overflow

  /** A declaration, a type expression of some file, or something out of reach. */
  datatype Node = DeclNode(key: Key) | TypeNode(file: string, t: Type) | OpaqueNode

  /** A named declaration entered with so many steps to go. */
  datatype Visit = Visit(key: Key, steps: nat)

  datatype Result = Result(answer: Answer, seen: set<Visit>)
  datatype Results = Results(answers: seq<Answer>, seen: set<Visit>)

  const PASSTHROUGH_WRAPPERS: set<string> := {"Partial", "Required", "Readonly", "NonNullable"}
  const ARRAY_WRAPPERS: set<string> := {"Array", "ReadonlyArray"}

  ghost predicate ValidNode(w: World, node: Node) {
    match node
    case DeclNode(key) => Declares(w, key)
    case TypeNode(file, _) => file in w.files
    case OpaqueNode => true
  }

  ghost predicate ValidNodes(w: World, nodes: seq<Node>) {
    forall node :: node in nodes ==> ValidNode(w, node)
  }

  ghost function Resolve(w: World, file: string, name: string): (node: Node)
    requires Closed(w) && file in w.files
    ensures ValidNode(w, node) && !node.TypeNode?
  {
    var decl := DeclForTypeName(w, file, name);
    if decl.Some? then DeclNode(decl.value) else OpaqueNode
  }

  ghost function BaseNodes(w: World, file: string, bases: seq<Option<string>>): (nodes: seq<Node>)
    requires Closed(w) && file in w.files
    ensures ValidNodes(w, nodes) && |nodes| == |bases| && forall node :: node in nodes ==> !node.TypeNode?
  {
    if bases == [] then []
    else [if bases[0].Some? then Resolve(w, file, bases[0].value) else OpaqueNode] + BaseNodes(w, file, bases[1..])
  }

  /** A node for a name: the declaration that the name means in its file, or out of reach
      when it means none. */
  ghost predicate StandsFor(w: World, file: string, name: string, node: Node)
    requires file in w.files
  {
    match node
    case DeclNode(key) => Means(w, file, name, Some(key))
    case OpaqueNode => Means(w, file, name, None)
    case TypeNode(_, _) => false
  }

  lemma ResolveStandsFor(w: World, file: string, name: string)
    requires Closed(w) && file in w.files
    ensures StandsFor(w, file, name, Resolve(w, file, name))
  {
    hide DeclForTypeName, Means;
    DeclIsMeant(w, file, name);
  }

  /** Each base is the declaration its name means; one that is no plain name is out of reach. */
  lemma {:induction false} BaseStandsFor(w: World, file: string, bases: seq<Option<string>>, k: nat)
    requires Closed(w) && file in w.files && k < |bases|
    ensures match bases[k]
            case Some(name) => StandsFor(w, file, name, BaseNodes(w, file, bases)[k])
            case None => BaseNodes(w, file, bases)[k] == OpaqueNode
  {
    hide StandsFor, Resolve;
    if k > 0 {
      BaseStandsFor(w, file, bases[1..], k - 1);
    } else if bases[0].Some? {
      ResolveStandsFor(w, file, bases[0].value);
    }
  }

  function PartNodes(file: string, parts: seq<Type>): (nodes: seq<Node>)
    ensures |nodes| == |parts|
    ensures forall i :: 0 <= i < |parts| ==> nodes[i] == TypeNode(file, parts[i])
  {
    if parts == [] then [] else [TypeNode(file, parts[0])] + PartNodes(file, parts[1..])
  }

  predicate IsWritten(m: Member, name: string) {
    m.naming.Property? && m.naming.written == name
  }

  /** The search goes by the text of the name, and through property signatures only. */
  function FindMember(members: seq<Member>, name: string): (found: Option<Member>)
    ensures found.Some? ==> found.value in members && IsWritten(found.value, name)
    ensures found.None? ==> forall m :: m in members ==> !IsWritten(m, name)
  {
    if members == [] then None
    else if IsWritten(members[0], name) then Some(members[0])
    else FindMember(members[1..], name)
  }

  /** Any part that has the path wins; else any doubt taints. */
  function Combine(answers: seq<Answer>): Answer {
    if Overflow in answers then Overflow
    else if Found in answers then Found
    else if Unknown in answers then Unknown
    else Missing
  }

  /** Presence on a union is definite only when every branch agrees. */
  function Agree(answers: seq<Answer>): Answer {
    if Overflow in answers then Overflow
    else if forall a | a in answers :: a == Found then Found
    else if forall a | a in answers :: a == Missing then Missing
    else Unknown
  }

  /** The walk. `seen` cuts off named declarations entered twice with equally many steps. */
  ghost function Lookup(w: World, node: Node, steps: seq<Step>, seen: set<Visit>, fuel: nat): (r: Result)
    requires Closed(w) && ValidNode(w, node)
    ensures seen <= r.seen
    decreases fuel, 0
  {
    if fuel == 0 then Result(Overflow, seen)
    else if steps == [] then Result(Found, seen)
    else match node
    case OpaqueNode => Result(Unknown, seen)
    case DeclNode(key) =>
      var decl := w.files[key.file].decls[key.name];
      var visit := Visit(key, |steps|);
      (match decl
       case Enum => Result(Unknown, seen)
       case Alias(target, _) =>
         if visit in seen then Result(Unknown, seen)
         else Lookup(w, TypeNode(key.file, target), steps, seen + {visit}, fuel - 1)
       case Interface(members, bases, _) =>
         if visit in seen then Result(Unknown, seen)
         else if steps[0].ArrayStep? then Result(Unknown, seen + {visit})
         else
           var own := FindMember(members, steps[0].name);
           if own.Some? then IntoMember(w, key.file, own.value, steps, seen + {visit}, fuel - 1)
           else if bases == [] then Result(Missing, seen + {visit})
           else
             var r := LookupAll(w, BaseNodes(w, key.file, bases), steps, seen + {visit}, fuel - 1);
             Result(Combine(r.answers), r.seen))
    case TypeNode(file, t) =>
      (match t
       case Literal(members) =>
         if steps[0].ArrayStep? then Result(Unknown, seen)
         else
           var own := FindMember(members, steps[0].name);
           if own.Some? then IntoMember(w, file, own.value, steps, seen, fuel - 1) else Result(Missing, seen)
       case Paren(inner) => Lookup(w, TypeNode(file, inner), steps, seen, fuel - 1)
       case Intersection(parts) =>
         var r := LookupAll(w, PartNodes(file, parts), steps, seen, fuel - 1);
         Result(Combine(r.answers), r.seen)
       case Union(parts) =>
         var r := LookupAll(w, PartNodes(file, parts), steps, seen, fuel - 1);
         Result(Agree(r.answers), r.seen)
       case Array(element) => IntoElement(w, file, element, steps, seen, fuel - 1)
       case Operator(_, operand) => Lookup(w, TypeNode(file, operand), steps, seen, fuel - 1)
       case Indexed(subject, index) =>
         Lookup(w, TypeNode(file, subject), [MemberStep(index)] + steps, seen, fuel - 1)
       case Ref(name, qualified, args) =>
         if name in PASSTHROUGH_WRAPPERS && args != [] then Lookup(w, TypeNode(file, args[0]), steps, seen, fuel - 1)
         else if name in ARRAY_WRAPPERS && args != [] then IntoElement(w, file, args[0], steps, seen, fuel - 1)
         else if qualified then Result(Unknown, seen)
         else Lookup(w, Resolve(w, file, name), steps, seen, fuel - 1)
       case Other(_) => Result(Unknown, seen))
  }

  ghost function IntoMember(w: World, file: string, m: Member, steps: seq<Step>, seen: set<Visit>,
        fuel: nat): (r: Result)
    requires Closed(w) && file in w.files && steps != []
    ensures seen <= r.seen
    decreases fuel, 1
  {
    if |steps| == 1 then Result(Found, seen)
    else if m.annotation.None? then Result(Unknown, seen)
    else Lookup(w, TypeNode(file, m.annotation.value), steps[1..], seen, fuel)
  }

  ghost function IntoElement(w: World, file: string, element: Type, steps: seq<Step>, seen: set<Visit>,
        fuel: nat): (r: Result)
    requires Closed(w) && file in w.files && steps != []
    ensures seen <= r.seen
    decreases fuel, 1
  {
    if steps[0].ArrayStep? then Lookup(w, TypeNode(file, element), steps[1..], seen, fuel) else Result(Unknown, seen)
  }

  /** The parts in order, the `seen` set growing along. */
  ghost function LookupAll(w: World, nodes: seq<Node>, steps: seq<Step>, seen: set<Visit>, fuel: nat): (r: Results)
    requires Closed(w) && ValidNodes(w, nodes)
    ensures |r.answers| == |nodes| && seen <= r.seen
    decreases fuel, 1 + |nodes|
  {
    if nodes == [] then Results([], seen)
    else
      var first := Lookup(w, nodes[0], steps, seen, fuel);
      var rest := LookupAll(w, nodes[1..], steps, first.seen, fuel);
      Results([first.answer] + rest.answers, rest.seen)
  }

  // ----- what a path being there means

  predicate IsNamed(m: Member, name: string) {
    !m.naming.StringIndex? && m.naming.name == name
  }

  function FindNamed(members: seq<Member>, name: string): (found: Option<Member>)
    ensures found.Some? ==> found.value in members && IsNamed(found.value, name)
    ensures found.None? ==> forall m :: m in members ==> !IsNamed(m, name)
  {
    if members == [] then None
    else if IsNamed(members[0], name) then Some(members[0])
    else FindNamed(members[1..], name)
  }

  function FindIndex(members: seq<Member>): (found: Option<Member>)
    ensures found.Some? ==> found.value in members && found.value.naming.StringIndex?
    ensures found.None? ==> forall m :: m in members ==> !m.naming.StringIndex?
  {
    if members == [] then None else if members[0].naming.StringIndex? then Some(members[0]) else FindIndex(members[1..])
  }

  predicate IsMeantBy(m: Member, name: string) {
    m.naming.StringIndex? || m.naming.name == name
  }

  /** The member that a name means: one of that name, else an index signature. */
  function FindMeant(members: seq<Member>, name: string): (found: Option<Member>)
    ensures found.Some? ==> found.value in members && IsMeantBy(found.value, name)
    ensures found.None? ==> forall m :: m in members ==> !IsMeantBy(m, name)
  {
    if FindNamed(members, name).Some? then FindNamed(members, name) else FindIndex(members)
  }

  /** A type is taken as the walk takes it, by the text of names, or as it is meant. */
  datatype View = AsWritten | AsMeant

  function Find(v: View, members: seq<Member>, name: string): (found: Option<Member>)
    ensures found.Some? ==> found.value in members
  {
    if v.AsWritten? then FindMember(members, name) else FindMeant(members, name)
  }

  /** Interfaces of one name are one interface. */
  function Merged(first: Decl, more: seq<Decl>): Decl
    decreases |more|
  {
    if more == [] then first
    else
      var next := more[0];
      var both := if first.Interface? && next.Interface?
                  then Interface(first.members + next.members, first.bases + next.bases, first.others + next.others)
                  else first;
      Merged(both, more[1..])
  }

  function DeclOf(v: View, w: World, key: Key): Decl
    requires Declares(w, key)
  {
    var ctx := w.files[key.file];
    if v.AsMeant? && key.name in ctx.further then Merged(ctx.decls[key.name], ctx.further[key.name])
    else ctx.decls[key.name]
  }

  /** What a reference is: a wrapper that passes members through, one around elements, a
      name to resolve, or out of reach. */
  datatype Reference = PassesThrough | HoldsElements | NamesType | OutOfReach

  predicate IsOwnName(w: World, file: string, name: string)
    requires file in w.files
  {
    name in w.files[file].decls || name in w.files[file].imports
  }

  /** The walk takes the name of a wrapper for the wrapper, qualified or not, and also where
      the file declares or imports a type of that name. */
  function ReferenceKind(v: View, w: World, file: string, t: Type): Reference
    requires file in w.files && t.Ref?
  {
    if v.AsMeant? && t.qualified then OutOfReach
    else if v.AsMeant? && IsOwnName(w, file, t.name) then NamesType
    else if t.name in PASSTHROUGH_WRAPPERS && t.args != [] then PassesThrough
    else if t.name in ARRAY_WRAPPERS && t.args != [] then HoldsElements
    else if t.qualified then OutOfReach
    else NamesType
  }

  /** One reading of a type. Each occurrence of a union is settled for one branch and
      each occurrence out of reach for one answer; an occurrence is named by the
      choices leading to it. */
  datatype Reading = Reading(branch: seq<nat> -> nat, outside: seq<nat> -> bool)

  /** Under one reading, the path leads somewhere, shown by a derivation of height `n`. */
  ghost predicate Has(v: View, w: World, i: Reading, node: Node, steps: seq<Step>, trail: seq<nat>, n: nat)
    requires Closed(w) && ValidNode(w, node)
    decreases n, 0
  {
    n > 0 &&
    (steps == [] ||
     match node
     case OpaqueNode => i.outside(trail)
     case DeclNode(key) =>
       (match DeclOf(v, w, key)
        case Enum => i.outside(trail)
        case Alias(target, _) => Has(v, w, i, TypeNode(key.file, target), steps, trail + [0], n - 1)
        case Interface(members, bases, _) =>
          if steps[0].ArrayStep? then i.outside(trail)
          else
            var own := Find(v, members, steps[0].name);
            if own.Some? then HasBelow(v, w, i, key.file, own.value, steps, trail, n - 1)
            else HasOneOf(v, w, i, BaseNodes(w, key.file, bases), steps, trail, n - 1))
     case TypeNode(file, t) =>
       (match t
        case Literal(members) =>
          if steps[0].ArrayStep? then i.outside(trail)
          else
            var own := Find(v, members, steps[0].name);
            own.Some? && HasBelow(v, w, i, file, own.value, steps, trail, n - 1)
        case Paren(inner) => Has(v, w, i, TypeNode(file, inner), steps, trail + [0], n - 1)
        case Intersection(parts) => HasOneOf(v, w, i, PartNodes(file, parts), steps, trail, n - 1)
        case Union(parts) =>
          var k := if i.branch(trail) < |parts| then i.branch(trail) else 0;
          parts == [] || Has(v, w, i, TypeNode(file, parts[k]), steps, trail + [k], n - 1)
        case Array(element) => HasElement(v, w, i, file, element, steps, trail, n - 1)
        case Operator(isReadonly, operand) =>
          if v.AsMeant? && !isReadonly then i.outside(trail)
          else Has(v, w, i, TypeNode(file, operand), steps, trail + [0], n - 1)
        case Indexed(subject, index) =>
          Has(v, w, i, TypeNode(file, subject), [MemberStep(index)] + steps, trail + [0], n - 1)
        case Ref(name, _, args) =>
          (match ReferenceKind(v, w, file, t)
           case PassesThrough => Has(v, w, i, TypeNode(file, args[0]), steps, trail + [0], n - 1)
           case HoldsElements => HasElement(v, w, i, file, args[0], steps, trail, n - 1)
           case OutOfReach => i.outside(trail)
           case NamesType => Has(v, w, i, Resolve(w, file, name), steps, trail + [0], n - 1))
        case Other(_) => i.outside(trail)))
  }

  ghost predicate HasBelow(v: View, w: World, i: Reading, file: string, m: Member, steps: seq<Step>, trail: seq<nat>,
        n: nat)
    requires Closed(w) && file in w.files && steps != []
    decreases n, 1
  {
    |steps| == 1 ||
    if m.annotation.None? then i.outside(trail)
    else Has(v, w, i, TypeNode(file, m.annotation.value), steps[1..], trail + [0], n)
  }

  ghost predicate HasElement(v: View, w: World, i: Reading, file: string, element: Type, steps: seq<Step>,
        trail: seq<nat>, n: nat)
    requires Closed(w) && file in w.files && steps != []
    decreases n, 1
  {
    if steps[0].ArrayStep? then Has(v, w, i, TypeNode(file, element), steps[1..], trail + [0], n) else i.outside(trail)
  }

  ghost predicate HasOneOf(v: View, w: World, i: Reading, nodes: seq<Node>, steps: seq<Step>, trail: seq<nat>, n: nat)
    requires Closed(w) && ValidNodes(w, nodes)
    decreases n, 1
  {
    exists k :: 0 <= k < |nodes| && Has(v, w, i, nodes[k], steps, trail + [k], n)
  }

  ghost predicate LeadsSomewhere(v: View, w: World, i: Reading, node: Node, steps: seq<Step>, trail: seq<nat>)
    requires Closed(w) && ValidNode(w, node)
  {
    exists n :: Has(v, w, i, node, steps, trail, n)
  }

  /** The path is there under every reading. */
  ghost predicate AlwaysThere(v: View, w: World, node: Node, steps: seq<Step>)
    requires Closed(w) && ValidNode(w, node)
  {
    forall i, trail :: LeadsSomewhere(v, w, i, node, steps, trail)
  }

  /** The path is there under no reading. */
  ghost predicate NeverThere(v: View, w: World, node: Node, steps: seq<Step>)
    requires Closed(w) && ValidNode(w, node)
  {
    forall i, trail :: !LeadsSomewhere(v, w, i, node, steps, trail)
  }

  // ----- soundness, by the text of names

  lemma PartAnswer(w: World, nodes: seq<Node>, steps: seq<Step>, seen: set<Visit>, fuel: nat, k: nat)
    returns (before: set<Visit>)
    requires Closed(w) && ValidNodes(w, nodes) && k < |nodes|
    ensures LookupAll(w, nodes, steps, seen, fuel).answers[k] == Lookup(w, nodes[k], steps, before, fuel).answer
  {
    if k == 0 { return seen; }
    before := PartAnswer(w, nodes[1..], steps, Lookup(w, nodes[0], steps, seen, fuel).seen, fuel, k - 1);
  }

  lemma {:induction false} FoundIsThere(w: World, i: Reading, node: Node, steps: seq<Step>, seen: set<Visit>,
        trail: seq<nat>, fuel: nat)
    requires Closed(w) && ValidNode(w, node)
    requires Lookup(w, node, steps, seen, fuel).answer == Found
    ensures Has(AsWritten, w, i, node, steps, trail, fuel)
    decreases fuel, 1
  {
    if steps != [] {
      match node
      case OpaqueNode =>
      case DeclNode(key) =>
        var inside := seen + {Visit(key, |steps|)};
        match w.files[key.file].decls[key.name] {
         case Enum =>
         case Alias(target, _) => FoundIsThere(w, i, TypeNode(key.file, target), steps, inside, trail + [0], fuel - 1);
         case Interface(members, bases, _) =>
           var own := FindMember(members, steps[0].name);
           if own.Some? { FoundBelow(w, i, key.file, own.value, steps, inside, trail, fuel - 1); }
           else { FoundInOne(w, i, BaseNodes(w, key.file, bases), steps, inside, trail, fuel - 1); }
        }
      case TypeNode(file, t) =>
        FoundInType(w, i, file, t, steps, seen, trail, fuel);
    }
  }

  lemma {:induction false} FoundInType(w: World, i: Reading, file: string, t: Type, steps: seq<Step>, seen: set<Visit>,
        trail: seq<nat>, fuel: nat)
    requires Closed(w) && file in w.files && steps != []
    requires Lookup(w, TypeNode(file, t), steps, seen, fuel).answer == Found
    ensures Has(AsWritten, w, i, TypeNode(file, t), steps, trail, fuel)
    decreases fuel, 0
  {
    match t {
     case Literal(members) =>
       FoundBelow(w, i, file, FindMember(members, steps[0].name).value, steps, seen, trail, fuel - 1);
     case Paren(inner) => FoundIsThere(w, i, TypeNode(file, inner), steps, seen, trail + [0], fuel - 1);
     case Intersection(parts) => FoundInOne(w, i, PartNodes(file, parts), steps, seen, trail, fuel - 1);
     case Union(parts) => FoundInUnion(w, i, file, parts, steps, seen, trail, fuel);
     case Array(element) => FoundIsThere(w, i, TypeNode(file, element), steps[1..], seen, trail + [0], fuel - 1);
     case Operator(_, operand) => FoundIsThere(w, i, TypeNode(file, operand), steps, seen, trail + [0], fuel - 1);
     case Indexed(subject, index) =>
       FoundIsThere(w, i, TypeNode(file, subject), [MemberStep(index)] + steps, seen, trail + [0], fuel - 1);
     case Ref(_, _, _) => FoundInRef(w, i, file, t, steps, seen, trail, fuel);
     case Other(_) =>
    }
  }

  lemma FoundInUnion(w: World, i: Reading, file: string, parts: seq<Type>, steps: seq<Step>, seen: set<Visit>,
        trail: seq<nat>, fuel: nat)
    requires Closed(w) && file in w.files && steps != []
    requires Lookup(w, TypeNode(file, Union(parts)), steps, seen, fuel).answer == Found
    ensures Has(AsWritten, w, i, TypeNode(file, Union(parts)), steps, trail, fuel)
    decreases fuel, 0, 0
  {
    if parts != [] {
      var k := if i.branch(trail) < |parts| then i.branch(trail) else 0;
      var answers := LookupAll(w, PartNodes(file, parts), steps, seen, fuel - 1).answers;
      var before := PartAnswer(w, PartNodes(file, parts), steps, seen, fuel - 1, k);
      assert answers[k] in answers;
      FoundIsThere(w, i, TypeNode(file, parts[k]), steps, before, trail + [k], fuel - 1);
    }
  }

  lemma {:induction false} FoundInRef(w: World, i: Reading, file: string, t: Type, steps: seq<Step>, seen: set<Visit>,
        trail: seq<nat>, fuel: nat)
    requires Closed(w) && file in w.files && steps != [] && t.Ref?
    requires Lookup(w, TypeNode(file, t), steps, seen, fuel).answer == Found
    ensures Has(AsWritten, w, i, TypeNode(file, t), steps, trail, fuel)
    decreases fuel, 0, 0
  {
    if t.name in PASSTHROUGH_WRAPPERS && t.args != [] {
      FoundIsThere(w, i, TypeNode(file, t.args[0]), steps, seen, trail + [0], fuel - 1);
    } else if t.name in ARRAY_WRAPPERS && t.args != [] {
      FoundIsThere(w, i, TypeNode(file, t.args[0]), steps[1..], seen, trail + [0], fuel - 1);
    } else {
      FoundIsThere(w, i, Resolve(w, file, t.name), steps, seen, trail + [0], fuel - 1);
    }
  }

  lemma FoundBelow(w: World, i: Reading, file: string, m: Member, steps: seq<Step>, seen: set<Visit>, trail: seq<nat>,
        fuel: nat)
    requires Closed(w) && file in w.files && steps != []
    requires IntoMember(w, file, m, steps, seen, fuel).answer == Found
    ensures HasBelow(AsWritten, w, i, file, m, steps, trail, fuel)
    decreases fuel, 2
  {
    if |steps| > 1 { FoundIsThere(w, i, TypeNode(file, m.annotation.value), steps[1..], seen, trail + [0], fuel); }
  }

  lemma FoundInOne(w: World, i: Reading, nodes: seq<Node>, steps: seq<Step>, seen: set<Visit>, trail: seq<nat>,
        fuel: nat)
    requires Closed(w) && ValidNodes(w, nodes)
    requires Combine(LookupAll(w, nodes, steps, seen, fuel).answers) == Found
    ensures HasOneOf(AsWritten, w, i, nodes, steps, trail, fuel)
    decreases fuel, 2
  {
    var answers := LookupAll(w, nodes, steps, seen, fuel).answers;
    var k :| 0 <= k < |answers| && answers[k] == Found;
    var before := PartAnswer(w, nodes, steps, seen, fuel, k);
    FoundIsThere(w, i, nodes[k], steps, before, trail + [k], fuel);
  }

  lemma {:induction false} MissingIsAbsent(w: World, i: Reading, node: Node, steps: seq<Step>, seen: set<Visit>,
        trail: seq<nat>, fuel: nat, n: nat)
    requires Closed(w) && ValidNode(w, node)
    requires Lookup(w, node, steps, seen, fuel).answer == Missing
    ensures !Has(AsWritten, w, i, node, steps, trail, n)
    decreases fuel, 1
  {
    if n > 0 {
      match node
      case OpaqueNode =>
      case DeclNode(key) =>
        var inside := seen + {Visit(key, |steps|)};
        match w.files[key.file].decls[key.name] {
         case Enum =>
         case Alias(target, _) =>
           MissingIsAbsent(w, i, TypeNode(key.file, target), steps, inside, trail + [0], fuel - 1, n - 1);
         case Interface(members, bases, _) =>
           var own := FindMember(members, steps[0].name);
           if own.Some? { MissingBelow(w, i, key.file, own.value, steps, inside, trail, fuel - 1, n - 1); }
           else { MissingInAll(w, i, BaseNodes(w, key.file, bases), steps, inside, trail, fuel - 1, n - 1); }
        }
      case TypeNode(file, t) =>
        MissingInType(w, i, file, t, steps, seen, trail, fuel, n);
    }
  }

  lemma {:induction false} MissingInType(w: World, i: Reading, file: string, t: Type, steps: seq<Step>,
        seen: set<Visit>, trail: seq<nat>, fuel: nat, n: nat)
    requires Closed(w) && file in w.files && n > 0
    requires Lookup(w, TypeNode(file, t), steps, seen, fuel).answer == Missing
    ensures !Has(AsWritten, w, i, TypeNode(file, t), steps, trail, n)
    decreases fuel, 0
  {
    match t {
     case Literal(members) =>
       var own := FindMember(members, steps[0].name);
       if own.Some? { MissingBelow(w, i, file, own.value, steps, seen, trail, fuel - 1, n - 1); }
     case Paren(inner) => MissingIsAbsent(w, i, TypeNode(file, inner), steps, seen, trail + [0], fuel - 1, n - 1);
     case Intersection(parts) => MissingInAll(w, i, PartNodes(file, parts), steps, seen, trail, fuel - 1, n - 1);
     case Union(parts) => MissingInUnion(w, i, file, parts, steps, seen, trail, fuel, n);
     case Array(element) =>
       MissingIsAbsent(w, i, TypeNode(file, element), steps[1..], seen, trail + [0], fuel - 1, n - 1);
     case Operator(_, operand) =>
       MissingIsAbsent(w, i, TypeNode(file, operand), steps, seen, trail + [0], fuel - 1, n - 1);
     case Indexed(subject, index) =>
       MissingIsAbsent(w, i, TypeNode(file, subject), [MemberStep(index)] + steps, seen, trail + [0], fuel - 1, n - 1);
     case Ref(_, _, _) => MissingInRef(w, i, file, t, steps, seen, trail, fuel, n);
     case Other(_) =>
    }
  }

  lemma MissingInUnion(w: World, i: Reading, file: string, parts: seq<Type>, steps: seq<Step>, seen: set<Visit>,
        trail: seq<nat>, fuel: nat, n: nat)
    requires Closed(w) && file in w.files && n > 0
    requires Lookup(w, TypeNode(file, Union(parts)), steps, seen, fuel).answer == Missing
    ensures !Has(AsWritten, w, i, TypeNode(file, Union(parts)), steps, trail, n)
    decreases fuel, 0, 0
  {
    var k := if i.branch(trail) < |parts| then i.branch(trail) else 0;
    var answers := LookupAll(w, PartNodes(file, parts), steps, seen, fuel - 1).answers;
    var before := PartAnswer(w, PartNodes(file, parts), steps, seen, fuel - 1, k);
    assert answers[k] in answers;
    MissingIsAbsent(w, i, TypeNode(file, parts[k]), steps, before, trail + [k], fuel - 1, n - 1);
  }

  lemma {:induction false} MissingInRef(w: World, i: Reading, file: string, t: Type, steps: seq<Step>, seen: set<Visit>,
        trail: seq<nat>, fuel: nat, n: nat)
    requires Closed(w) && file in w.files && n > 0 && t.Ref?
    requires Lookup(w, TypeNode(file, t), steps, seen, fuel).answer == Missing
    ensures !Has(AsWritten, w, i, TypeNode(file, t), steps, trail, n)
    decreases fuel, 0, 0
  {
    if t.name in PASSTHROUGH_WRAPPERS && t.args != [] {
      MissingIsAbsent(w, i, TypeNode(file, t.args[0]), steps, seen, trail + [0], fuel - 1, n - 1);
    } else if t.name in ARRAY_WRAPPERS && t.args != [] {
      MissingIsAbsent(w, i, TypeNode(file, t.args[0]), steps[1..], seen, trail + [0], fuel - 1, n - 1);
    } else {
      MissingIsAbsent(w, i, Resolve(w, file, t.name), steps, seen, trail + [0], fuel - 1, n - 1);
    }
  }

  lemma MissingBelow(w: World, i: Reading, file: string, m: Member, steps: seq<Step>, seen: set<Visit>, trail: seq<nat>,
        fuel: nat, n: nat)
    requires Closed(w) && file in w.files && steps != []
    requires IntoMember(w, file, m, steps, seen, fuel).answer == Missing
    ensures !HasBelow(AsWritten, w, i, file, m, steps, trail, n)
    decreases fuel, 2
  {
    MissingIsAbsent(w, i, TypeNode(file, m.annotation.value), steps[1..], seen, trail + [0], fuel, n);
  }

  lemma MissingInAll(w: World, i: Reading, nodes: seq<Node>, steps: seq<Step>, seen: set<Visit>, trail: seq<nat>,
        fuel: nat, n: nat)
    requires Closed(w) && ValidNodes(w, nodes)
    requires nodes == [] || Combine(LookupAll(w, nodes, steps, seen, fuel).answers) == Missing
    ensures !HasOneOf(AsWritten, w, i, nodes, steps, trail, n)
    decreases fuel, 2
  {
    var answers := LookupAll(w, nodes, steps, seen, fuel).answers;
    forall k | 0 <= k < |nodes| ensures !Has(AsWritten, w, i, nodes[k], steps, trail + [k], n) {
      assert answers[k] in answers;
      var before := PartAnswer(w, nodes, steps, seen, fuel, k);
      MissingIsAbsent(w, i, nodes[k], steps, before, trail + [k], fuel, n);
    }
  }

  /** Taken by the text of names, `Found` holds under every reading and `Missing` under none,
      whatever was seen before and however deep the walk went. */
  lemma SoundAsWritten(w: World, node: Node, steps: seq<Step>, seen: set<Visit>, fuel: nat)
    requires Closed(w) && ValidNode(w, node)
    ensures Lookup(w, node, steps, seen, fuel).answer == Found ==> AlwaysThere(AsWritten, w, node, steps)
    ensures Lookup(w, node, steps, seen, fuel).answer == Missing ==> NeverThere(AsWritten, w, node, steps)
  {
    if Lookup(w, node, steps, seen, fuel).answer == Found {
      forall i, trail ensures LeadsSomewhere(AsWritten, w, i, node, steps, trail) {
        FoundIsThere(w, i, node, steps, seen, trail, fuel);
      }
    }
    if Lookup(w, node, steps, seen, fuel).answer == Missing {
      forall i, trail ensures !LeadsSomewhere(AsWritten, w, i, node, steps, trail) {
        forall n ensures !Has(AsWritten, w, i, node, steps, trail, n) {
          MissingIsAbsent(w, i, node, steps, seen, trail, fuel, n);
        }
      }
    }
  }

  /** A witness that `Unknown` can hide a definite answer: a union that names one interface
      twice re-enters it with equally many steps, so a member every branch has comes back
      `Unknown`. */
  lemma RepeatedBranchIsUnknown(w: World, file: string, name: string, key: Key, member: string, fuel: nat)
    requires Closed(w) && file in w.files && Resolve(w, file, name) == DeclNode(key)
    requires w.files[key.file].decls[key.name].Interface? && key.name !in w.files[key.file].further
    requires FindMember(w.files[key.file].decls[key.name].members, member).Some? && fuel >= 4
    requires FindMeant(w.files[key.file].decls[key.name].members, member).Some?
    ensures var union := TypeNode(file, Union([Ref(name, false, []), Ref(name, false, [])]));
            && Lookup(w, union, [MemberStep(member)], {}, fuel).answer == Unknown
            && AlwaysThere(AsMeant, w, union, [MemberStep(member)])
  {
    var reference, steps, visit := Ref(name, false, []), [MemberStep(member)], Visit(key, 1);
    var parts := [reference, reference];
    var nodes := PartNodes(file, parts);
    assert nodes == [TypeNode(file, reference), TypeNode(file, reference)];
    assert {} + {visit} == {visit};
    assert Lookup(w, DeclNode(key), steps, {}, fuel - 2) == Result(Found, {visit});
    assert Lookup(w, TypeNode(file, reference), steps, {}, fuel - 1) == Result(Found, {visit});
    assert Lookup(w, DeclNode(key), steps, {visit}, fuel - 2) == Result(Unknown, {visit});
    assert Lookup(w, TypeNode(file, reference), steps, {visit}, fuel - 1) == Result(Unknown, {visit});
    assert nodes[1..] == [TypeNode(file, reference)] && nodes[1..][1..] == [];
    assert LookupAll(w, nodes[1..], steps, {visit}, fuel - 1).answers == [Unknown];
    var answers := LookupAll(w, nodes, steps, {}, fuel - 1).answers;
    assert answers == [Found, Unknown];
    assert answers[0] in answers && answers[1] in answers;
    assert Agree(answers) == Unknown;
    assert Lookup(w, TypeNode(file, Union(parts)), steps, {}, fuel).answer == Unknown;
    RepeatedIsThere(w, file, reference, key, steps);
  }

  lemma RepeatedIsThere(w: World, file: string, reference: Type, key: Key, steps: seq<Step>)
    requires Closed(w) && file in w.files && reference.Ref? && reference.args == [] && !reference.qualified
    requires Resolve(w, file, reference.name) == DeclNode(key)
    requires forall i, trail :: Has(AsMeant, w, i, DeclNode(key), steps, trail, 2)
    ensures AlwaysThere(AsMeant, w, TypeNode(file, Union([reference, reference])), steps)
  {
    var parts := [reference, reference];
    forall i, trail ensures LeadsSomewhere(AsMeant, w, i, TypeNode(file, Union(parts)), steps, trail) {
      var k := if i.branch(trail) < 2 then i.branch(trail) else 0;
      assert parts[k] == reference;
      assert Has(AsMeant, w, i, DeclNode(key), steps, trail + [k] + [0], 2);
      assert Has(AsMeant, w, i, TypeNode(file, reference), steps, trail + [k], 3);
      assert Has(AsMeant, w, i, TypeNode(file, Union(parts)), steps, trail, 4);
    }
  }
}
