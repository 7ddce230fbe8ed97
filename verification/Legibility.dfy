/** When `missing` means missing. */
module Legibility {
  import opened Wrappers
  import opened ConfigTypes
  import opened TypeLookup

  // The walk goes by the text of names and takes every type operator and every reference
  // at its face. Its answers hold of the type as it is meant where the two agree, which
  // can be read off the declarations.

  // ----- types that are written as they are meant

  /** For each of these names, the members that mean it are the properties written so. */
  ghost predicate LegibleMembers(members: seq<Member>, names: set<string>) {
    forall m, n | m in members && n in names :: IsWritten(m, n) <==> IsMeantBy(m, n)
  }

  /** Wherever a path with these names leads from `t`, what it meets is written as it is
      meant, and the declarations are among `keys`. */
  ghost predicate LegibleType(w: World, keys: set<Key>, names: set<string>, file: string, t: Type)
    requires Closed(w) && file in w.files
    decreases t
  {
    match t
    case Literal(members) =>
      && LegibleMembers(members, names)
      && forall m | m in members :: Enterable(m, names) ==> LegibleType(w, keys, names, file, m.annotation.value)
    case Paren(inner) => LegibleType(w, keys, names, file, inner)
    case Intersection(parts) => forall p | p in parts :: LegibleType(w, keys, names, file, p)
    case Union(parts) => forall p | p in parts :: LegibleType(w, keys, names, file, p)
    case Array(element) => LegibleType(w, keys, names, file, element)
    case Operator(isReadonly, operand) => isReadonly && LegibleType(w, keys, names, file, operand)
    case Indexed(subject, index) => index in names && LegibleType(w, keys, names, file, subject)
    case Ref(name, _, args) =>
      && ReferenceKind(AsWritten, w, file, t) == ReferenceKind(AsMeant, w, file, t)
      && (match ReferenceKind(AsMeant, w, file, t)
          case PassesThrough => LegibleType(w, keys, names, file, args[0])
          case HoldsElements => LegibleType(w, keys, names, file, args[0])
          case OutOfReach => true
          case NamesType => AmongKeys(keys, Resolve(w, file, name)))
    case Other(_) => true
  }

  predicate Enterable(m: Member, names: set<string>) {
    m.naming.Property? && m.naming.written in names && m.annotation.Some?
  }

  predicate AmongKeys(keys: set<Key>, node: Node) {
    node.DeclNode? ==> node.key in keys
  }

  ghost predicate LegibleDecl(w: World, keys: set<Key>, names: set<string>, key: Key)
    requires Closed(w) && Declares(w, key)
  {
    && key.name !in w.files[key.file].further
    && match w.files[key.file].decls[key.name]
       case Enum => true
       case Alias(target, _) => LegibleType(w, keys, names, key.file, target)
       case Interface(members, bases, _) =>
         && LegibleType(w, keys, names, key.file, Literal(members))
         && forall node | node in BaseNodes(w, key.file, bases) :: AmongKeys(keys, node)
  }

  ghost predicate LegibleNode(w: World, keys: set<Key>, names: set<string>, node: Node)
    requires Closed(w) && ValidNode(w, node)
  {
    if node.TypeNode? then LegibleType(w, keys, names, node.file, node.t) else AmongKeys(keys, node)
  }

  ghost predicate LegibleKeys(w: World, keys: set<Key>, names: set<string>)
    requires Closed(w)
  {
    forall key | key in keys :: Declares(w, key) && LegibleDecl(w, keys, names, key)
  }

  predicate NamesIn(steps: seq<Step>, names: set<string>) {
    forall s | s in steps :: s.MemberStep? ==> s.name in names
  }

  ghost predicate LegibleWith(w: World, keys: set<Key>, names: set<string>, node: Node, steps: seq<Step>)
    requires Closed(w) && ValidNode(w, node)
  {
    LegibleKeys(w, keys, names) && LegibleNode(w, keys, names, node) && NamesIn(steps, names)
  }

  /** What the path can meet from this node is written as it is meant. */
  ghost predicate Legible(w: World, node: Node, steps: seq<Step>)
    requires Closed(w) && ValidNode(w, node)
  {
    exists keys, names :: LegibleWith(w, keys, names, node, steps)
  }

  // ----- there both views agree

  lemma SameMember(members: seq<Member>, names: set<string>, name: string)
    requires LegibleMembers(members, names) && name in names
    ensures FindMember(members, name) == FindMeant(members, name)
  {
    SameNamed(members, names, name);
  }

  lemma SameNamed(members: seq<Member>, names: set<string>, name: string)
    requires LegibleMembers(members, names) && name in names
    ensures FindMember(members, name) == FindNamed(members, name) && FindIndex(members).None?
  {
    if members != [] {
      assert members[0] in members;
      SameNamed(members[1..], names, name);
    }
  }

  lemma {:induction false} ViewsAgree(w: World, keys: set<Key>, names: set<string>, i: Reading, node: Node,
        steps: seq<Step>, trail: seq<nat>, n: nat)
    requires Closed(w) && ValidNode(w, node) && LegibleWith(w, keys, names, node, steps)
    ensures Has(AsWritten, w, i, node, steps, trail, n) <==> Has(AsMeant, w, i, node, steps, trail, n)
    decreases n, 1, 0
  {
    if n > 0 && steps != [] {
      match node
      case OpaqueNode =>
      case DeclNode(key) => ViewsAgreeOnDecl(w, keys, names, i, key, steps, trail, n);
      case TypeNode(file, t) => ViewsAgreeOnType(w, keys, names, i, file, t, steps, trail, n);
    }
  }

  lemma ViewsAgreeOnDecl(w: World, keys: set<Key>, names: set<string>, i: Reading, key: Key, steps: seq<Step>,
        trail: seq<nat>, n: nat)
    requires Closed(w) && key in keys && LegibleKeys(w, keys, names) && NamesIn(steps, names) && n > 0 && steps != []
    ensures Has(AsWritten, w, i, DeclNode(key), steps, trail, n) <==> Has(AsMeant, w, i, DeclNode(key), steps, trail, n)
    decreases n, 0, 1
  {
    assert LegibleDecl(w, keys, names, key);
    hide LegibleKeys;
    match w.files[key.file].decls[key.name]
    case Enum =>
    case Alias(target, _) => ViewsAgree(w, keys, names, i, TypeNode(key.file, target), steps, trail + [0], n - 1);
    case Interface(members, bases, _) =>
      if steps[0].MemberStep? {
        SameMember(members, names, steps[0].name);
        var own := FindMember(members, steps[0].name);
        if own.Some? {
          ViewsAgreeBelow(w, keys, names, i, key.file, own.value, steps, trail, n - 1);
        } else {
          ViewsAgreeOnParts(w, keys, names, i, BaseNodes(w, key.file, bases), steps, trail, n - 1);
        }
      }
  }

  lemma ViewsAgreeBelow(w: World, keys: set<Key>, names: set<string>, i: Reading, file: string, m: Member,
        steps: seq<Step>, trail: seq<nat>, n: nat)
    requires Closed(w) && file in w.files && LegibleKeys(w, keys, names) && NamesIn(steps, names) && steps != []
    requires m.annotation.Some? ==> LegibleType(w, keys, names, file, m.annotation.value)
    ensures HasBelow(AsWritten, w, i, file, m, steps, trail, n) <==> HasBelow(AsMeant, w, i, file, m, steps, trail, n)
    decreases n, 2, 0
  {
    hide LegibleKeys, LegibleType, Has;
    if |steps| > 1 && m.annotation.Some? {
      ViewsAgree(w, keys, names, i, TypeNode(file, m.annotation.value), steps[1..], trail + [0], n);
    }
  }

  lemma ViewsAgreeOnElement(w: World, keys: set<Key>, names: set<string>, i: Reading, file: string, element: Type,
        steps: seq<Step>, trail: seq<nat>, n: nat)
    requires Closed(w) && file in w.files && LegibleKeys(w, keys, names) && NamesIn(steps, names) && steps != []
    requires LegibleType(w, keys, names, file, element)
    ensures HasElement(AsWritten, w, i, file, element, steps, trail, n) <==>
              HasElement(AsMeant, w, i, file, element, steps, trail, n)
    decreases n, 2, 0
  {
    hide LegibleKeys, LegibleType, Has;
    if steps[0].ArrayStep? {
      ViewsAgree(w, keys, names, i, TypeNode(file, element), steps[1..], trail + [0], n);
    }
  }

  lemma ViewsAgreeOnParts(w: World, keys: set<Key>, names: set<string>, i: Reading, nodes: seq<Node>,
        steps: seq<Step>, trail: seq<nat>, n: nat)
    requires Closed(w) && ValidNodes(w, nodes) && LegibleKeys(w, keys, names) && NamesIn(steps, names)
    requires forall node :: node in nodes ==> LegibleNode(w, keys, names, node)
    ensures HasOneOf(AsWritten, w, i, nodes, steps, trail, n) <==> HasOneOf(AsMeant, w, i, nodes, steps, trail, n)
    decreases n, 2, 0
  {
    hide LegibleKeys, LegibleNode, Has;
    forall k | 0 <= k < |nodes|
      ensures Has(AsWritten, w, i, nodes[k], steps, trail + [k], n) <==>
          Has(AsMeant, w, i, nodes[k], steps, trail + [k], n)
    {
      ViewsAgree(w, keys, names, i, nodes[k], steps, trail + [k], n);
    }
  }

  lemma ViewsAgreeOnRef(w: World, keys: set<Key>, names: set<string>, i: Reading, file: string, t: Type,
        steps: seq<Step>, trail: seq<nat>, n: nat)
    requires Closed(w) && file in w.files && t.Ref? && LegibleKeys(w, keys, names) && NamesIn(steps, names)
    requires LegibleType(w, keys, names, file, t) && n > 0 && steps != []
    ensures Has(AsWritten, w, i, TypeNode(file, t), steps, trail, n) <==>
              Has(AsMeant, w, i, TypeNode(file, t), steps, trail, n)
    decreases n, 0, 0
  {
    hide LegibleKeys;
    match ReferenceKind(AsMeant, w, file, t)
    case PassesThrough => ViewsAgree(w, keys, names, i, TypeNode(file, t.args[0]), steps, trail + [0], n - 1);
    case HoldsElements => ViewsAgreeOnElement(w, keys, names, i, file, t.args[0], steps, trail, n - 1);
    case OutOfReach =>
    case NamesType => ViewsAgree(w, keys, names, i, Resolve(w, file, t.name), steps, trail + [0], n - 1);
  }

  lemma {:induction false} ViewsAgreeOnType(w: World, keys: set<Key>, names: set<string>, i: Reading, file: string,
        t: Type, steps: seq<Step>, trail: seq<nat>, n: nat)
    requires Closed(w) && file in w.files && LegibleKeys(w, keys, names) && NamesIn(steps, names)
    requires LegibleType(w, keys, names, file, t) && n > 0 && steps != []
    ensures Has(AsWritten, w, i, TypeNode(file, t), steps, trail, n) <==>
              Has(AsMeant, w, i, TypeNode(file, t), steps, trail, n)
    decreases n, 0, 1
  {
    hide LegibleKeys;
    match t
    case Literal(members) =>
      if steps[0].MemberStep? {
        SameMember(members, names, steps[0].name);
        var own := FindMember(members, steps[0].name);
        if own.Some? { ViewsAgreeBelow(w, keys, names, i, file, own.value, steps, trail, n - 1); }
      }
    case Paren(inner) => ViewsAgree(w, keys, names, i, TypeNode(file, inner), steps, trail + [0], n - 1);
    case Intersection(parts) => ViewsAgreeOnParts(w, keys, names, i, PartNodes(file, parts), steps, trail, n - 1);
    case Union(parts) =>
      if parts != [] {
        var k := if i.branch(trail) < |parts| then i.branch(trail) else 0;
        ViewsAgree(w, keys, names, i, TypeNode(file, parts[k]), steps, trail + [k], n - 1);
      }
    case Array(element) => ViewsAgreeOnElement(w, keys, names, i, file, element, steps, trail, n - 1);
    case Operator(_, operand) => ViewsAgree(w, keys, names, i, TypeNode(file, operand), steps, trail + [0], n - 1);
    case Indexed(subject, index) =>
      ViewsAgree(w, keys, names, i, TypeNode(file, subject), [MemberStep(index)] + steps, trail + [0], n - 1);
    case Ref(_, _, _) => ViewsAgreeOnRef(w, keys, names, i, file, t, steps, trail, n);
    case Other(_) =>
  }

  lemma LegibleViewsAgree(w: World, i: Reading, node: Node, steps: seq<Step>, trail: seq<nat>)
    requires Closed(w) && ValidNode(w, node) && Legible(w, node, steps)
    ensures LeadsSomewhere(AsWritten, w, i, node, steps, trail) <==> LeadsSomewhere(AsMeant, w, i, node, steps, trail)
  {
    hide LegibleWith, Has;
    var keys, names :| LegibleWith(w, keys, names, node, steps);
    forall n: nat ensures Has(AsWritten, w, i, node, steps, trail, n) <==> Has(AsMeant, w, i, node, steps, trail, n) {
      ViewsAgree(w, keys, names, i, node, steps, trail, n);
    }
  }

  /** Where types are written as they are meant, `Found` holds under every reading and
      `Missing` under none, whatever was seen before and however deep the walk went. */
  lemma LookupIsSound(w: World, node: Node, steps: seq<Step>, seen: set<Visit>, fuel: nat)
    requires Closed(w) && ValidNode(w, node) && Legible(w, node, steps)
    ensures Lookup(w, node, steps, seen, fuel).answer == Found ==> AlwaysThere(AsMeant, w, node, steps)
    ensures Lookup(w, node, steps, seen, fuel).answer == Missing ==> NeverThere(AsMeant, w, node, steps)
  {
    hide Legible, LeadsSomewhere, Lookup;
    SoundAsWritten(w, node, steps, seen, fuel);
    forall i, trail
      ensures LeadsSomewhere(AsWritten, w, i, node, steps, trail) <==> LeadsSomewhere(AsMeant, w, i, node, steps, trail)
    {
      LegibleViewsAgree(w, i, node, steps, trail);
    }
  }

  // ----- where they do not

  /** The members of a literal, or of an interface declared once and without bases. */
  function BareMembers(w: World, node: Node): Option<seq<Member>> {
    match node
    case DeclNode(key) =>
      if !Declares(w, key) || key.name in w.files[key.file].further then None else
      (match w.files[key.file].decls[key.name]
       case Interface(members, bases, _) => if bases == [] then Some(members) else None
       case _ => None)
    case TypeNode(_, t) => if t.Literal? then Some(t.members) else None
    case OpaqueNode => None
  }

  ghost predicate SomeIsWritten(members: seq<Member>, name: string) {
    exists m :: m in members && IsWritten(m, name)
  }

  ghost predicate SomeIsMeant(members: seq<Member>, name: string) {
    exists m :: m in members && IsMeantBy(m, name)
  }

  lemma BareMeaning(w: World, node: Node, members: seq<Member>, name: string)
    requires Closed(w) && ValidNode(w, node) && BareMembers(w, node) == Some(members)
    ensures if SomeIsMeant(members, name) then AlwaysThere(AsMeant, w, node, [MemberStep(name)])
            else NeverThere(AsMeant, w, node, [MemberStep(name)])
  {
    if SomeIsMeant(members, name) {
      forall i, trail ensures LeadsSomewhere(AsMeant, w, i, node, [MemberStep(name)], trail) {
        assert Has(AsMeant, w, i, node, [MemberStep(name)], trail, 1);
      }
    } else {
      assert FindMeant(members, name).None?;
      forall i, trail ensures !LeadsSomewhere(AsMeant, w, i, node, [MemberStep(name)], trail) {
        forall n: nat ensures !Has(AsMeant, w, i, node, [MemberStep(name)], trail, n) {}
      }
    }
  }

  lemma SomeReading(w: World, node: Node, steps: seq<Step>)
    requires Closed(w) && ValidNode(w, node)
    ensures !(AlwaysThere(AsMeant, w, node, steps) && NeverThere(AsMeant, w, node, steps))
  {
    var i: Reading := Reading(_ => 0, _ => true);
    assert LeadsSomewhere(AsMeant, w, i, node, steps, []) || !LeadsSomewhere(AsMeant, w, i, node, steps, []);
  }

  /** For a member of a literal or of an interface without bases: `Missing` is wrong exactly
      when some member means the name and none is written so, `Found` exactly when one is
      written so and none means it; then the answer is wrong under every reading. */
  lemma BareAnswerWrongIff(w: World, node: Node, members: seq<Member>, name: string, fuel: nat)
    requires Closed(w) && ValidNode(w, node) && BareMembers(w, node) == Some(members) && fuel > 0
    ensures var answer, steps := Lookup(w, node, [MemberStep(name)], {}, fuel).answer, [MemberStep(name)];
            && (answer == Missing && !NeverThere(AsMeant, w, node, steps) <==>
                  SomeIsMeant(members, name) && !SomeIsWritten(members, name))
            && (answer == Found && !AlwaysThere(AsMeant, w, node, steps) <==>
                  SomeIsWritten(members, name) && !SomeIsMeant(members, name))
            && (answer == Missing && !NeverThere(AsMeant, w, node, steps) ==> AlwaysThere(AsMeant, w, node, steps))
            && (answer == Found && !AlwaysThere(AsMeant, w, node, steps) ==> NeverThere(AsMeant, w, node, steps))
  {
    BareMeaning(w, node, members, name);
    SomeReading(w, node, [MemberStep(name)]);
    assert FindMember(members, name).Some? <==> SomeIsWritten(members, name);
  }

  const NUMBER := Other([])

  /** `interface Config { 'max-steps': number }`. */
  const QUOTED := World(map["a.ts" := FileCtx(map["Config" :=
    Interface([Member(Property("'max-steps'", "max-steps"), Some(NUMBER))], [], [])], map[], map[], [])], map[])

  lemma QuotedMemberIsMissed(fuel: nat)
    requires fuel > 0
    ensures Closed(QUOTED)
    ensures var config, steps := DeclNode(Key("a.ts", "Config")), [MemberStep("max-steps")];
            && ValidNode(QUOTED, config)
            && Lookup(QUOTED, config, steps, {}, fuel).answer == Missing && AlwaysThere(AsMeant, QUOTED, config, steps)
  {
    var config := DeclNode(Key("a.ts", "Config"));
    var members := [Member(Property("'max-steps'", "max-steps"), Some(NUMBER))];
    assert Closed(QUOTED) && BareMembers(QUOTED, config) == Some(members);
    assert members[0] in members && SomeIsMeant(members, "max-steps");
    assert "'max-steps'"[0] != "max-steps"[0];
    assert !SomeIsWritten(members, "max-steps");
    BareAnswerWrongIff(QUOTED, config, members, "max-steps", fuel);
  }

  /** Through an operator that is not `readonly`, such as `keyof`, the walk goes all the
      same; a `Missing` it brings back is right exactly behind `readonly`. */
  lemma OperatorMissingRightIff(w: World, keys: set<Key>, names: set<string>, file: string, isReadonly: bool,
        operand: Type, steps: seq<Step>, seen: set<Visit>, fuel: nat)
    requires Closed(w) && file in w.files && LegibleWith(w, keys, names, TypeNode(file, operand), steps)
    requires Lookup(w, TypeNode(file, Operator(isReadonly, operand)), steps, seen, fuel).answer == Missing
    ensures NeverThere(AsMeant, w, TypeNode(file, Operator(isReadonly, operand)), steps) <==> isReadonly
  {
    var node := TypeNode(file, Operator(isReadonly, operand));
    if isReadonly {
      assert LegibleWith(w, keys, names, node, steps);
      LookupIsSound(w, node, steps, seen, fuel);
    } else {
      var i := Reading(_ => 0, _ => true);
      assert Has(AsMeant, w, i, node, steps, [], 1);
      assert LeadsSomewhere(AsMeant, w, i, node, steps, []);
    }
  }

  /** A type of the file's own that bears the name of a wrapper is taken for the wrapper:
      a member it has is missed when the argument lacks it. */
  lemma OwnWrapperIsMissed(w: World, file: string, name: string, members: seq<Member>, others: seq<Type>,
        member: string, fuel: nat)
    requires Closed(w) && Declares(w, Key(file, name)) && name in PASSTHROUGH_WRAPPERS && fuel > 1
    requires name !in w.files[file].further
    requires w.files[file].decls[name] == Interface(members, [], others) && SomeIsMeant(members, member)
    ensures var node, steps := TypeNode(file, Ref(name, false, [Literal([])])), [MemberStep(member)];
            Lookup(w, node, steps, {}, fuel).answer == Missing && AlwaysThere(AsMeant, w, node, steps)
  {
    var node, steps := TypeNode(file, Ref(name, false, [Literal([])])), [MemberStep(member)];
    var own := DeclNode(Key(file, name));
    assert Resolve(w, file, name) == own;
    assert Lookup(w, TypeNode(file, Literal([])), steps, {}, fuel - 1).answer == Missing;
    forall i, trail ensures LeadsSomewhere(AsMeant, w, i, node, steps, trail) {
      assert Has(AsMeant, w, i, own, steps, trail + [0], 1);
      assert Has(AsMeant, w, i, node, steps, trail, 2);
    }
  }

  /** Of two interfaces of one name the walk finds the first: a member of the second is missed. */
  lemma SecondInterfaceIsMissed(w: World, key: Key, first: seq<Member>, second: seq<Member>, member: string, fuel: nat)
    requires Closed(w) && Declares(w, key) && w.files[key.file].decls[key.name] == Interface(first, [], [])
    requires key.name in w.files[key.file].further
    requires w.files[key.file].further[key.name] == [Interface(second, [], [])]
    requires !SomeIsWritten(first, member) && SomeIsMeant(second, member) && fuel > 0
    ensures var node, steps := DeclNode(key), [MemberStep(member)];
            Lookup(w, node, steps, {}, fuel).answer == Missing && AlwaysThere(AsMeant, w, node, steps)
  {
    var node, steps := DeclNode(key), [MemberStep(member)];
    var m :| m in second && IsMeantBy(m, member);
    assert m in first + second;
    assert DeclOf(AsMeant, w, key) == Interface(first + second, [], []) by {
      assert [Interface(second, [], [])][1..] == [];
      assert Merged(Interface(first + second, [] + [], [] + []), []) == Interface(first + second, [], []);
    }
    assert FindMeant(first + second, member).Some?;
    forall i, trail ensures LeadsSomewhere(AsMeant, w, i, node, steps, trail) {
      assert Has(AsMeant, w, i, node, steps, trail, 1);
    }
  }
}
