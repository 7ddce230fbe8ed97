/** The lookup as the catalog runs it: one walk object, whose `seen` set every branch of
    one path check shares; and the parsing of key paths such as `agents[].id`. */
module TypeWalk {
  import opened Wrappers
  import opened ConfigTypes
  import opened TypeLookup
  import opened Legibility
  import opened LookupExactness
  import opened Text

  class PathWalk {
    const w: World
    var seen: set<Visit>

    constructor (w: World)
      ensures this.w == w && seen == {}
    {
      this.w, this.seen := w, {};
    }

    method Referenced(file: string, name: string) returns (node: Node)
      requires Closed(w) && file in w.files
      ensures node == Resolve(w, file, name)
    {
      var decl := ResolveDecl(w, file, name);
      node := if decl.Some? then DeclNode(decl.value) else OpaqueNode;
    }

    method Bases(file: string, bases: seq<Option<string>>) returns (nodes: seq<Node>)
      requires Closed(w) && file in w.files
      ensures nodes == BaseNodes(w, file, bases)
    {
      nodes := [];
      var k := |bases|;
      while k > 0
        invariant 0 <= k <= |bases| && nodes == BaseNodes(w, file, bases[k..])
      {
        k := k - 1;
        var node := OpaqueNode;
        if bases[k].Some? { node := Referenced(file, bases[k].value); }
        assert bases[k..] == [bases[k]] + bases[k + 1..];
        nodes := [node] + nodes;
      }
    }

    method LookupPath(node: Node, steps: seq<Step>, fuel: nat) returns (answer: Answer)
      requires Closed(w) && ValidNode(w, node)
      modifies this
      ensures Result(answer, seen) == Lookup(w, node, steps, old(seen), fuel)
      decreases fuel, 2
    {
      if fuel == 0 { return Overflow; }
      if steps == [] { return Found; }
      match node {
        case OpaqueNode => return Unknown;
        case DeclNode(key) => answer := LookupDecl(key, steps, fuel);
        case TypeNode(file, t) => answer := LookupType(file, t, steps, fuel);
      }
    }

    method LookupDecl(key: Key, steps: seq<Step>, fuel: nat) returns (answer: Answer)
      requires Closed(w) && Declares(w, key) && steps != [] && fuel > 0
      modifies this
      ensures Result(answer, seen) == Lookup(w, DeclNode(key), steps, old(seen), fuel)
      decreases fuel, 1
    {
      var decl := w.files[key.file].decls[key.name];
      if decl.Enum? { return Unknown; }
      var visit := Visit(key, |steps|);
      if visit in seen { return Unknown; }
      seen := seen + {visit};
      if decl.Alias? {
        answer := LookupPath(TypeNode(key.file, decl.target), steps, fuel - 1);
        return;
      }
      if steps[0].ArrayStep? { return Unknown; }
      var own := FindMember(decl.members, steps[0].name);
      if own.Some? {
        answer := LookupMember(key.file, own.value, steps, fuel - 1);
      } else if decl.bases == [] {
        return Missing;
      } else {
        var bases := Bases(key.file, decl.bases);
        var answers := LookupParts(bases, steps, fuel - 1);
        answer := Combine(answers);
      }
    }

    method LookupMember(file: string, m: Member, steps: seq<Step>, fuel: nat) returns (answer: Answer)
      requires Closed(w) && file in w.files && steps != []
      modifies this
      ensures Result(answer, seen) == IntoMember(w, file, m, steps, old(seen), fuel)
      decreases fuel, 3
    {
      if |steps| == 1 { return Found; }
      if m.annotation.None? { return Unknown; }
      answer := LookupPath(TypeNode(file, m.annotation.value), steps[1..], fuel);
    }

    method LookupElement(file: string, element: Type, steps: seq<Step>, fuel: nat) returns (answer: Answer)
      requires Closed(w) && file in w.files && steps != []
      modifies this
      ensures Result(answer, seen) == IntoElement(w, file, element, steps, old(seen), fuel)
      decreases fuel, 3
    {
      if !steps[0].ArrayStep? { return Unknown; }
      answer := LookupPath(TypeNode(file, element), steps[1..], fuel);
    }

    method LookupType(file: string, t: Type, steps: seq<Step>, fuel: nat) returns (answer: Answer)
      requires Closed(w) && file in w.files && steps != [] && fuel > 0
      modifies this
      ensures Result(answer, seen) == Lookup(w, TypeNode(file, t), steps, old(seen), fuel)
      decreases fuel, 1
    {
      match t {
        case Literal(members) =>
          if steps[0].ArrayStep? { return Unknown; }
          var own := FindMember(members, steps[0].name);
          if own.None? { return Missing; }
          answer := LookupMember(file, own.value, steps, fuel - 1);
        case Paren(inner) => answer := LookupPath(TypeNode(file, inner), steps, fuel - 1);
        case Intersection(parts) =>
          var answers := LookupParts(PartNodes(file, parts), steps, fuel - 1);
          answer := Combine(answers);
        case Union(parts) =>
          var answers := LookupParts(PartNodes(file, parts), steps, fuel - 1);
          answer := Agree(answers);
        case Array(element) => answer := LookupElement(file, element, steps, fuel - 1);
        case Operator(_, operand) => answer := LookupPath(TypeNode(file, operand), steps, fuel - 1);
        case Indexed(subject, index) =>
          answer := LookupPath(TypeNode(file, subject), [MemberStep(index)] + steps, fuel - 1);
        case Ref(name, qualified, args) =>
          if name in PASSTHROUGH_WRAPPERS && args != [] {
            answer := LookupPath(TypeNode(file, args[0]), steps, fuel - 1);
          } else if name in ARRAY_WRAPPERS && args != [] {
            answer := LookupElement(file, args[0], steps, fuel - 1);
          } else if qualified {
            return Unknown;
          } else {
            var referenced := Referenced(file, name);
            answer := LookupPath(referenced, steps, fuel - 1);
          }
        case Other(_) => return Unknown;
      }
    }

    method LookupParts(nodes: seq<Node>, steps: seq<Step>, fuel: nat) returns (answers: seq<Answer>)
      requires Closed(w) && ValidNodes(w, nodes)
      modifies this
      ensures Results(answers, seen) == LookupAll(w, nodes, steps, old(seen), fuel)
      decreases fuel, 3
    {
      hide Lookup;
      answers := [];
      ghost var all := LookupAll(w, nodes, steps, seen, fuel);
      for k := 0 to |nodes|
        invariant |answers| == k
        invariant all == Results(answers + LookupAll(w, nodes[k..], steps, seen, fuel).answers,
                                 LookupAll(w, nodes[k..], steps, seen, fuel).seen)
      {
        assert nodes[k..][0] == nodes[k] && nodes[k..][1..] == nodes[k + 1..];
        ghost var tail := LookupAll(w, nodes[k..], steps, seen, fuel);
        var answer := LookupPath(nodes[k], steps, fuel);
        assert answers + tail.answers == (answers + [answer]) + LookupAll(w, nodes[k + 1..], steps, seen, fuel).answers;
        answers := answers + [answer];
      }
      assert nodes[|nodes|..] == [];
      assert answers + [] == answers;
    }
  }

  // ----- key paths

  const BRACKETS := "[]"

  predicate EndsWithBrackets(s: string) {
    |s| >= 2 && s[|s| - 2..] == BRACKETS
  }

  function SegmentSteps(segment: string): seq<Step>
    decreases |segment|
  {
    if EndsWithBrackets(segment) then SegmentSteps(segment[..|segment| - 2]) + [ArrayStep] else [MemberStep(segment)]
  }

  function AllSteps(segments: seq<string>): seq<Step> {
    if segments == [] then [] else SegmentSteps(segments[0]) + AllSteps(segments[1..])
  }

  /** What a key path says: a member for each segment, and an array hop for each `[]`. */
  function PathSteps(path: string): seq<Step> {
    AllSteps(Split(path, '.'))
  }

  function Written(step: Step): string {
    match step case MemberStep(name) => name case ArrayStep => BRACKETS
  }

  /** A path written back: array hops as `[]`, members separated by dots. */
  function Render(steps: seq<Step>): string {
    if steps == [] then ""
    else Written(steps[0])
         + (if |steps| > 1 && steps[1].MemberStep? then "." else "")
         + Render(steps[1..])
  }

  /** A path in which no member name could be split further. */
  ghost predicate Parsed(steps: seq<Step>) {
    && steps != [] && steps[0].MemberStep?
    && forall k :: 0 <= k < |steps| && steps[k].MemberStep? ==>
       '.' !in steps[k].name && !EndsWithBrackets(steps[k].name)
  }

  /** Rendering two paths joined: a dot goes between them before a member only. */
  lemma {:induction false} RenderJoins(steps: seq<Step>, more: seq<Step>)
    requires steps != [] && more != []
    ensures Render(steps + more) == Render(steps) + ((if more[0].MemberStep? then "." else "") + Render(more))
  {
    hide Render, Written;
    var tail := (if more[0].MemberStep? then "." else "") + Render(more);
    if |steps| == 1 {
      RenderFirst(steps[0], more);
      RenderOne(steps[0]);
      assert steps == [steps[0]];
      JoinedApart(Written(steps[0]), if more[0].MemberStep? then "." else "", Render(more));
    } else {
      var rest := steps[1..];
      RenderJoins(rest, more);
      RenderFirst(steps[0], rest + more);
      RenderFirst(steps[0], rest);
      assert steps + more == [steps[0]] + (rest + more) && steps == [steps[0]] + rest;
      JoinedApart(Written(steps[0]) + (if rest[0].MemberStep? then "." else ""), Render(rest), tail);
    }
  }

  lemma RenderFirst(step: Step, rest: seq<Step>)
    ensures Render([step] + rest)
        == Written(step) + (if rest != [] && rest[0].MemberStep? then "." else "") + Render(rest)
  {
    assert ([step] + rest)[1..] == rest;
  }

  lemma JoinedApart(a: string, b: string, c: string)
    ensures a + (b + c) == a + b + c
  {
  }

  lemma {:induction false} SegmentRenders(segment: string)
    requires '.' !in segment
    ensures Render(SegmentSteps(segment)) == segment && Parsed(SegmentSteps(segment))
    decreases |segment|
  {
    hide Render;
    if EndsWithBrackets(segment) {
      var name := segment[..|segment| - 2];
      assert segment == name + BRACKETS;
      SegmentRenders(name);
      RenderJoins(SegmentSteps(name), [ArrayStep]);
      RenderOne(ArrayStep);
    } else {
      RenderOne(MemberStep(segment));
    }
  }

  lemma RenderOne(step: Step)
    ensures Render([step]) == Written(step)
  {
  }

  lemma {:induction false} SegmentsRender(segments: seq<string>)
    requires segments != [] && forall k :: 0 <= k < |segments| ==> '.' !in segments[k]
    ensures Render(AllSteps(segments)) == Join(segments, ".") && Parsed(AllSteps(segments))
  {
    hide Render, SegmentSteps, EndsWithBrackets;
    SegmentRenders(segments[0]);
    if |segments| == 1 {
      assert AllSteps(segments[1..]) == [];
      assert SegmentSteps(segments[0]) + [] == SegmentSteps(segments[0]);
    } else {
      SegmentsRender(segments[1..]);
      RenderJoins(SegmentSteps(segments[0]), AllSteps(segments[1..]));
    }
  }

  /** Every key path reads back as written. */
  lemma PathRendersBack(path: string)
    ensures Render(PathSteps(path)) == path && Parsed(PathSteps(path))
  {
    SplitJoins(path, '.');
    SegmentsRender(Split(path, '.'));
  }

  lemma {:induction false} AllStepsJoin(a: seq<string>, b: seq<string>)
    ensures AllSteps(a + b) == AllSteps(a) + AllSteps(b)
  {
    hide SegmentSteps;
    if a == [] {
      assert a + b == b;
    } else {
      AllStepsJoin(a[1..], b);
      assert (a + b)[1..] == a[1..] + b;
      var first, rest, more := SegmentSteps(a[0]), AllSteps(a[1..]), AllSteps(b);
      assert first + (rest + more) == first + rest + more;
    }
  }

  lemma AllStepsOfOne(segment: string)
    ensures AllSteps([segment]) == SegmentSteps(segment)
  {
    hide SegmentSteps;
    assert AllSteps([segment][1..]) == [];
  }

  /** The segments with text put behind the last. */
  function Lengthened(segments: seq<string>, more: string): seq<string>
    requires segments != []
  {
    segments[..|segments| - 1] + [segments[|segments| - 1] + more]
  }

  /** Text without a dot goes to the last segment. */
  lemma {:induction false} SplitLast(path: string, more: string)
    requires '.' !in more
    ensures Split(path + more, '.') == Lengthened(Split(path, '.'), more)
  {
    if path == [] {
      assert path + more == more;
      SplitNone(more);
    } else {
      SplitLast(path[1..], more);
      assert (path + more)[1..] == path[1..] + more && (path + more)[0] == path[0];
      LengthenedFirst(path[0], Split(path[1..], '.'), more);
    }
  }

  lemma LengthenedFirst(c: char, rest: seq<string>, more: string)
    requires rest != []
    ensures var longer := Lengthened(rest, more);
            && [""] + longer == Lengthened([""] + rest, more)
            && [[c] + longer[0]] + longer[1..] == Lengthened([[c] + rest[0]] + rest[1..], more)
  {
    if |rest| == 1 { assert [c] + (rest[0] + more) == [c] + rest[0] + more; }
  }

  lemma {:induction false} SplitNone(segment: string)
    requires '.' !in segment
    ensures Split(segment, '.') == [segment]
  {
    if segment != [] {
      SplitNone(segment[1..]);
      assert [segment[0]] + segment[1..] == segment && [segment[1..]][1..] == [];
    }
  }

  lemma {:induction false} SplitAtDot(path: string, name: string)
    requires '.' !in name
    ensures Split(path + "." + name, '.') == Split(path, '.') + [name]
  {
    if path == [] {
      assert path + "." + name == ['.'] + name && (['.'] + name)[1..] == name;
      SplitNone(name);
    } else {
      SplitAtDot(path[1..], name);
      assert (path + "." + name)[1..] == path[1..] + "." + name && (path + "." + name)[0] == path[0];
    }
  }

  lemma StepsWithHop(path: string)
    ensures PathSteps(path + BRACKETS) == PathSteps(path) + [ArrayStep]
  {
    hide Split, SegmentSteps;
    SplitLast(path, BRACKETS);
    var segments := Split(path, '.');
    var init, last := segments[..|segments| - 1], segments[|segments| - 1];
    assert segments == init + [last];
    AllStepsJoin(init, [last]);
    AllStepsJoin(init, [last + BRACKETS]);
    AllStepsOfOne(last);
    AllStepsOfOne(last + BRACKETS);
    HopOfSegment(last);
    assert AllSteps(init) + (SegmentSteps(last) + [ArrayStep]) == AllSteps(init) + SegmentSteps(last) + [ArrayStep];
  }

  lemma HopOfSegment(segment: string)
    ensures SegmentSteps(segment + BRACKETS) == SegmentSteps(segment) + [ArrayStep]
  {
    assert (segment + BRACKETS)[|segment|..] == BRACKETS && (segment + BRACKETS)[..|segment|] == segment;
  }

  lemma StepsWithMember(path: string, name: string)
    requires '.' !in name && !EndsWithBrackets(name)
    ensures PathSteps(path + "." + name) == PathSteps(path) + [MemberStep(name)]
  {
    SplitAtDot(path, name);
    AllStepsJoin(Split(path, '.'), [name]);
    AllStepsOfOne(name);
  }

  lemma {:induction false} ParsedReadsBack(steps: seq<Step>)
    requires Parsed(steps)
    ensures PathSteps(Render(steps)) == steps
  {
    hide Render, PathSteps;
    var init, last := steps[..|steps| - 1], steps[|steps| - 1];
    assert steps == init + [last];
    RenderOne(last);
    if init == [] {
      assert steps == [last];
      OneMember(last.name);
    } else {
      ParsedReadsBack(init);
      RenderJoins(init, [last]);
      match last
      case ArrayStep =>
        assert Render(init) + ("" + BRACKETS) == Render(init) + BRACKETS;
        StepsWithHop(Render(init));
      case MemberStep(name) =>
        assert Render(init) + ("." + name) == Render(init) + "." + name;
        StepsWithMember(Render(init), name);
    }
  }

  lemma OneMember(name: string)
    requires '.' !in name && !EndsWithBrackets(name)
    ensures PathSteps(name) == [MemberStep(name)]
  {
    SplitNone(name);
    AllStepsOfOne(name);
  }

  /** Steps written as a path read back exactly when the first is a member and no member
      name has a dot or ends in brackets. */
  lemma StepsReadBackIff(steps: seq<Step>)
    ensures PathSteps(Render(steps)) == steps <==> Parsed(steps)
  {
    hide Render, PathSteps, Parsed;
    PathRendersBack(Render(steps));
    if Parsed(steps) { ParsedReadsBack(steps); }
  }

  /** A member whose own name has a dot is taken for two. */
  lemma DottedNameIsSplit(a: string, b: string)
    requires '.' !in a && !EndsWithBrackets(a) && '.' !in b && !EndsWithBrackets(b)
    ensures PathSteps(Render([MemberStep(a + "." + b)])) == [MemberStep(a), MemberStep(b)]
  {
    hide PathSteps;
    RenderOne(MemberStep(a + "." + b));
    OneMember(a);
    StepsWithMember(a, b);
  }

  method ParseSegment(segment: string) returns (steps: seq<Step>)
    ensures steps == SegmentSteps(segment)
  {
    var name := segment;
    var hops := [];
    while EndsWithBrackets(name)
      invariant SegmentSteps(segment) == SegmentSteps(name) + hops
      decreases |name|
    {
      assert SegmentSteps(name) + hops == SegmentSteps(name[..|name| - 2]) + ([ArrayStep] + hops);
      name := name[..|name| - 2];
      hops := [ArrayStep] + hops;
    }
    steps := [MemberStep(name)] + hops;
  }

  method ParsePath(path: string) returns (steps: seq<Step>)
    ensures steps == PathSteps(path)
  {
    hide SegmentSteps, Split;
    var segments := Split(path, '.');
    steps := [];
    assert segments[0..] == segments;
    for k := 0 to |segments|
      invariant PathSteps(path) == steps + AllSteps(segments[k..])
    {
      var more := ParseSegment(segments[k]);
      StepsOf(segments, k, steps);
      steps := steps + more;
    }
    assert segments[|segments|..] == [];
  }

  lemma StepsOf(segments: seq<string>, k: nat, steps: seq<Step>)
    requires k < |segments|
    ensures steps + AllSteps(segments[k..]) == steps + SegmentSteps(segments[k]) + AllSteps(segments[k + 1..])
  {
    assert segments[k..][0] == segments[k] && segments[k..][1..] == segments[k + 1..];
  }

  /** The catalog's check of one key path: it complains only when, by the text of names, no
      reading of the config type has it; and where the type is written as it is meant, none
      has it. Where the path meets no declaration twice with equally many steps, a check that
      returns complains exactly then. */
  method PathViolates(w: World, config: Key, path: string, stack: nat) returns (violation: bool)
    requires Closed(w) && Declares(w, config)
    ensures violation <==> Lookup(w, DeclNode(config), PathSteps(path), {}, stack).answer == Missing
    ensures violation ==> NeverThere(AsWritten, w, DeclNode(config), PathSteps(path))
    ensures violation && Legible(w, DeclNode(config), PathSteps(path)) ==>
              NeverThere(AsMeant, w, DeclNode(config), PathSteps(path))
    ensures IsDecided(w, DeclNode(config), PathSteps(path), stack) ==>
              (violation <==> NeverThere(AsWritten, w, DeclNode(config), PathSteps(path)))
    ensures IsDecidedAsMeant(w, DeclNode(config), PathSteps(path), stack) ==>
              (violation <==> NeverThere(AsMeant, w, DeclNode(config), PathSteps(path)))
  {
    hide Lookup, NeverThere, Legible, MeetsOnce;
    var steps := ParsePath(path);
    var walk := new PathWalk(w);
    var answer := walk.LookupPath(DeclNode(config), steps, stack);
    SoundAsWritten(w, DeclNode(config), steps, {}, stack);
    if Legible(w, DeclNode(config), steps) { LookupIsSound(w, DeclNode(config), steps, {}, stack); }
    if IsDecided(w, DeclNode(config), steps, stack) { LookupIsExact(w, DeclNode(config), steps, stack); }
    violation := answer == Missing;
  }

  /** The key `max-steps` of a schema is reported although the type has the member, in quotes. */
  method QuotedKeyIsReported(stack: nat) returns (violation: bool)
    requires stack > 0
    ensures violation && AlwaysThere(AsMeant, QUOTED, DeclNode(Key("a.ts", "Config")), PathSteps("max-steps"))
  {
    QuotedMemberIsMissed(stack);
    OneMember("max-steps");
    hide Lookup, AlwaysThere, NeverThere, Legible, IsDecided, QUOTED;
    violation := PathViolates(QUOTED, Key("a.ts", "Config"), "max-steps", stack);
  }
}
