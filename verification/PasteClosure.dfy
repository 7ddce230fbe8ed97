/** The declarations a config fence pastes. */
module PasteClosure {
  import opened Wrappers
  import opened ConfigTypes

  // The config type and, transitively, every package-local declaration it names, with one
  // import for every other name.

  const GLOBAL_TYPES: set<string> := {
    "Array", "ReadonlyArray", "Record", "Partial", "Required", "Readonly", "Pick", "Omit",
    "Promise", "Map", "Set", "Date", "Error", "RegExp", "Exclude", "Extract", "NonNullable",
    "ReturnType", "Parameters", "AbortSignal", "URL", "Buffer", "NodeJS", "Iterable", "AsyncIterable"
  }

  /** Where a name outside the package comes from. */
  datatype TypeRef = TypeRef(imported: string, specifier: string)

  /** `Endless` is a chain of imports that never reaches a declaration: the source
      follows it until its stack is exhausted. */
  datatype Resolution =
    | Declared(key: Key)
    | Imported(ref: TypeRef)
    | Unresolved
    | LacksExtension
    | AliasedLocally
    | Endless

  /** Resolve a name along package-local imports. `visited` are the files already
      passed through. */
  function ResolveTypeName(w: World, file: string, name: string, visited: set<string>): (r: Resolution)
    requires Closed(w) && file in w.files
    ensures r.Declared? ==> Declares(w, r.key) && r.key.name == name
    decreases w.files.Keys - visited
  {
    var ctx := w.files[file];
    if name in ctx.decls then Declared(Key(file, name))
    else if name !in ctx.imports then Unresolved
    else
      var imp := ctx.imports[name];
      match imp.source
      case Package(pkg) => Imported(TypeRef(imp.imported, pkg))
      case RelativeOther(_) => LacksExtension
      case RelativeFile(target) =>
        if imp.imported != name then AliasedLocally
        else if file in visited then Endless
        else ResolveTypeName(w, target, name, visited + {file})
  }

  function Resolved(w: World, file: string, name: string): Resolution
    requires Closed(w) && file in w.files
  {
    ResolveTypeName(w, file, name, {})
  }

  // ----- the names a declaration refers to

  function TypeNames(t: Type): seq<string>
    decreases t
  {
    match t
    case Literal(members) => NamesOfMembers(members)
    case Paren(inner) => TypeNames(inner)
    case Intersection(parts) => NamesOfAll(parts)
    case Union(parts) => NamesOfAll(parts)
    case Array(element) => TypeNames(element)
    case Operator(_, operand) => TypeNames(operand)
    case Indexed(subject, _) => TypeNames(subject)
    case Ref(name, _, args) => [name] + NamesOfAll(args)
    case Other(parts) => NamesOfAll(parts)
  }

  function NamesOfAll(types: seq<Type>): seq<string>
    decreases types
  {
    if types == [] then [] else TypeNames(types[0]) + NamesOfAll(types[1..])
  }

  function NamesOfMembers(members: seq<Member>): seq<string>
    decreases members
  {
    if members == [] then [] else NamesOfMember(members[0]) + NamesOfMembers(members[1..])
  }

  function NamesOfMember(m: Member): seq<string>
    decreases m
  {
    if m.annotation.Some? then TypeNames(m.annotation.value) else []
  }

  function NamesOfBases(bases: seq<Option<string>>): seq<string> {
    if bases == [] then [] else (if bases[0].Some? then [bases[0].value] else []) + NamesOfBases(bases[1..])
  }

  function CollectTypeNames(decl: Decl): seq<string> {
    match decl
    case Interface(members, bases, others) => NamesOfBases(bases) + NamesOfMembers(members) + NamesOfAll(others)
    case Alias(target, others) => TypeNames(target) + NamesOfAll(others)
    case Enum => []
  }

  /** The types written right inside a type. */
  function PartsOf(t: Type): seq<Type> {
    match t
    case Literal(members) => Annotations(members)
    case Paren(inner) => [inner]
    case Intersection(parts) => parts
    case Union(parts) => parts
    case Array(element) => [element]
    case Operator(_, operand) => [operand]
    case Indexed(subject, _) => [subject]
    case Ref(_, _, args) => args
    case Other(parts) => parts
  }

  function Annotations(members: seq<Member>): seq<Type> {
    if members == [] then []
    else (if members[0].annotation.Some? then [members[0].annotation.value] else []) + Annotations(members[1..])
  }

  /** Taking the parts of these numbers, one inside the other, leads to a reference of the name. */
  predicate RefersAt(types: seq<Type>, path: seq<nat>, name: string)
    decreases |path|
  {
    && path != [] && path[0] < |types|
    && if |path| == 1 then types[path[0]].Ref? && types[path[0]].name == name
       else RefersAt(PartsOf(types[path[0]]), path[1..], name)
  }

  ghost predicate RefersTo(types: seq<Type>, name: string) {
    exists path :: RefersAt(types, path, name)
  }

  lemma RefersFirst(types: seq<Type>, name: string)
    requires types != []
    ensures RefersTo(types, name) <==>
            (types[0].Ref? && types[0].name == name) || RefersTo(PartsOf(types[0]), name) || RefersTo(types[1..], name)
  {
    if path :| RefersAt(types, path, name) {
      if path[0] == 0 {
        assert |path| > 1 ==> RefersAt(PartsOf(types[0]), path[1..], name);
      } else {
        var later := [path[0] - 1] + path[1..];
        assert later[1..] == path[1..] && RefersAt(types[1..], later, name);
      }
    }
    if types[0].Ref? && types[0].name == name { assert RefersAt(types, [0], name); }
    if path :| RefersAt(PartsOf(types[0]), path, name) {
      assert ([0] + path)[1..] == path && RefersAt(types, [0] + path, name);
    }
    if path :| RefersAt(types[1..], path, name) {
      var later := [path[0] + 1] + path[1..];
      assert later[1..] == path[1..] && RefersAt(types, later, name);
    }
  }

  lemma {:induction false} NamesAreReferences(types: seq<Type>, name: string)
    ensures name in NamesOfAll(types) <==> RefersTo(types, name)
    decreases types, 1
  {
    if types != [] {
      RefersFirst(types, name);
      NamesOfType(types[0], name);
      NamesAreReferences(types[1..], name);
    }
  }

  /** The names of a type are those of the references in it, at any depth. */
  lemma {:induction false} NamesOfType(t: Type, name: string)
    ensures name in TypeNames(t) <==> (t.Ref? && t.name == name) || RefersTo(PartsOf(t), name)
    decreases t, 0
  {
    match t
    case Literal(members) => NamesOfMembersAre(members, name);
    case Paren(inner) => NameOfOne(inner, name);
    case Intersection(parts) => NamesAreReferences(parts, name);
    case Union(parts) => NamesAreReferences(parts, name);
    case Array(element) => NameOfOne(element, name);
    case Operator(_, operand) => NameOfOne(operand, name);
    case Indexed(subject, _) => NameOfOne(subject, name);
    case Ref(_, _, args) => NamesAreReferences(args, name);
    case Other(parts) => NamesAreReferences(parts, name);
  }

  lemma NameOfOne(t: Type, name: string)
    ensures name in TypeNames(t) <==> RefersTo([t], name)
    decreases t, 1
  {
    NamesOfType(t, name);
    RefersFirst([t], name);
    forall path ensures !RefersAt([], path, name) {}
  }

  lemma {:induction false} NamesOfMembersAre(members: seq<Member>, name: string)
    ensures name in NamesOfMembers(members) <==> RefersTo(Annotations(members), name)
    decreases members
  {
    if members != [] {
      NamesOfMembersAre(members[1..], name);
      if members[0].annotation.Some? {
        NameOfAnnotation(members[0], name);
        RefersFirst(Annotations(members), name);
        assert Annotations(members)[1..] == Annotations(members[1..]);
      } else {
        assert Annotations(members) == Annotations(members[1..]);
      }
    }
  }

  lemma NameOfAnnotation(m: Member, name: string)
    requires m.annotation.Some?
    ensures name in NamesOfMember(m) <==>
            (m.annotation.value.Ref? && m.annotation.value.name == name) || RefersTo(PartsOf(m.annotation.value), name)
    decreases m
  {
    NamesOfType(m.annotation.value, name);
  }

  /** The names of a declaration are its bases and the references in the types written in it. */
  lemma NamesOfDecl(decl: Decl, name: string)
    ensures name in CollectTypeNames(decl) <==>
            match decl
            case Interface(members, bases, others) =>
              Some(name) in bases || RefersTo(Annotations(members), name) || RefersTo(others, name)
            case Alias(target, others) => RefersTo([target], name) || RefersTo(others, name)
            case Enum => false
  {
    match decl
    case Interface(members, bases, others) =>
      NamesOfBasesAre(bases, name);
      NamesOfMembersAre(members, name);
      NamesAreReferences(others, name);
    case Alias(target, others) =>
      NameOfOne(target, name);
      NamesAreReferences(others, name);
    case Enum =>
  }

  lemma {:induction false} NamesOfBasesAre(bases: seq<Option<string>>, name: string)
    ensures name in NamesOfBases(bases) <==> Some(name) in bases
  {
    if bases != [] {
      NamesOfBasesAre(bases[1..], name);
      assert forall b :: b in bases <==> b == bases[0] || b in bases[1..];
    }
  }

  /** The declaration names `n`, and `n` is no global type. */
  predicate Mentions(w: World, key: Key, n: string)
    requires Declares(w, key)
  {
    n in CollectTypeNames(w.files[key.file].decls[key.name]) && n !in GLOBAL_TYPES
  }

  // ----- consistent fences

  datatype Fence = Fence(pasted: map<string, Key>, refs: map<string, TypeRef>)

  /** The name, as seen from the file, is what the fence carries under that name. */
  ghost predicate Carries(w: World, fence: Fence, file: string, name: string)
    requires Closed(w) && file in w.files
  {
    match Resolved(w, file, name)
    case Declared(key) => name in fence.pasted && fence.pasted[name] == key
    case Imported(ref) => name in fence.refs && fence.refs[name] == ref
    case _ => false
  }

  /** Every name the pasted declarations use means in the fence what it means in its
      file, and no name means two things. */
  ghost predicate Consistent(w: World, entry: string, config: string, fence: Fence)
    requires Closed(w) && entry in w.files
  {
    && Resolved(w, entry, config).Declared? && Carries(w, fence, entry, config)
    && fence.pasted.Keys !! fence.refs.Keys
    && (forall n :: n in fence.pasted ==> Declares(w, fence.pasted[n]))
    && (forall n, m :: n in fence.pasted && Mentions(w, fence.pasted[n], m) ==>
       Carries(w, fence, fence.pasted[n].file, m))
  }

  ghost predicate Extends(small: Fence, large: Fence) {
    && (forall n :: n in small.pasted ==> n in large.pasted && large.pasted[n] == small.pasted[n])
    && (forall n :: n in small.refs ==> n in large.refs && large.refs[n] == small.refs[n])
  }

  lemma CarriesGrows(w: World, small: Fence, large: Fence, file: string, name: string)
    requires Closed(w) && file in w.files && Extends(small, large) && Carries(w, small, file, name)
    ensures Carries(w, large, file, name)
  {
  }

  // ----- the worklist

  datatype Violation =
    | NoExtension(file: string, name: string)
    | Aliased(file: string, name: string)
    | Unresolvable(name: string, via: string)
    | ForeignConfig(name: string)
    | DeclaredThenImported(name: string)
    | ImportedTwice(name: string)
    | DeclaredTwice(name: string)
    | ImportedThenDeclared(name: string)

  datatype Item = Item(name: string, from: string)
  datatype Outcome = Collected(fence: Fence, pastes: seq<Key>, violations: seq<Violation>) | StackExhausted

  ghost function DeclaredNames(w: World): set<string> {
    set f, d | f in w.files && d in w.files[f].decls :: d
  }

  /** Names a declaration mentions, each once, as work for the queue. */
  method MentionedItems(w: World, key: Key) returns (items: seq<Item>)
    requires Closed(w) && Declares(w, key)
    ensures forall item :: item in items <==> item.from == key.file && Mentions(w, key, item.name)
  {
    var names := CollectTypeNames(w.files[key.file].decls[key.name]);
    items := [];
    for k := 0 to |names|
      invariant forall item :: item in items <==>
          item.from == key.file && item.name in names[..k] && item.name !in GLOBAL_TYPES
    {
      assert names[..k + 1] == names[..k] + [names[k]];
      if names[k] !in GLOBAL_TYPES && Item(names[k], key.file) !in items {
        items := items + [Item(names[k], key.file)];
      }
    }
    assert names[..|names|] == names;
  }

  /** Every item still queued comes from the config parameter or from a paste. */
  ghost predicate Sourced(w: World, root: Item, pastes: seq<Key>, queue: seq<Item>) {
    || (pastes == [] && (queue == [root] || queue == []))
    || (pastes != [] && forall item :: item in queue ==> Supported(w, pastes, item))
  }

  ghost predicate Supported(w: World, pastes: seq<Key>, item: Item) {
    exists j :: 0 <= j < |pastes| && pastes[j].file == item.from && Declares(w, pastes[j])
      && Mentions(w, pastes[j], item.name)
  }

  /** The pastes, in order: no name twice, and each after the first is what some
      earlier paste refers to. */
  ghost predicate NothingSuperfluous(w: World, pastes: seq<Key>)
    requires Closed(w)
  {
    && (forall i, j :: 0 <= i < j < |pastes| ==> pastes[i].name != pastes[j].name)
    && (forall i :: 0 < i < |pastes| ==> Called(w, pastes[..i], pastes[i]))
  }

  ghost predicate Called(w: World, pastes: seq<Key>, key: Key)
    requires Closed(w)
  {
    exists j :: 0 <= j < |pastes| && Declares(w, pastes[j]) && Mentions(w, pastes[j], key.name)
             && Resolved(w, pastes[j].file, key.name) == Declared(key)
  }

  /** The pasted map is the list of pastes, by name. */
  ghost predicate Listed(w: World, fence: Fence, pastes: seq<Key>)
    requires Closed(w)
  {
    && NothingSuperfluous(w, pastes)
    && fence.pasted.Keys !! fence.refs.Keys
    && (forall n :: n in fence.pasted ==>
       Declares(w, fence.pasted[n]) && fence.pasted[n].name == n && fence.pasted[n] in pastes)
    && (forall key :: key in pastes ==> key.name in fence.pasted && fence.pasted[key.name] == key)
  }

  /** What is mentioned so far is carried or still queued. */
  ghost predicate Progressing(w: World, root: Item, fence: Fence, queue: seq<Item>)
    requires Closed(w) && root.from in w.files
    requires forall n :: n in fence.pasted ==> Declares(w, fence.pasted[n])
  {
    && (root in queue || Carries(w, fence, root.from, root.name))
    && (forall n, m :: n in fence.pasted && Mentions(w, fence.pasted[n], m) ==>
          Item(m, fence.pasted[n].file) in queue || Carries(w, fence, fence.pasted[n].file, m))
  }

  /** Everything gathered or queued belongs to the given fence. */
  ghost predicate Within(w: World, fence: Fence, queue: seq<Item>, other: Fence)
    requires Closed(w)
  {
    && Extends(fence, other)
    && forall item :: item in queue ==> item.from in w.files && Carries(w, other, item.from, item.name)
  }

  /** `grown` is `fence` with what the item resolves to filed under its name. */
  ghost predicate Files(w: World, fence: Fence, item: Item, grown: Fence)
    requires Closed(w) && item.from in w.files
  {
    && Extends(fence, grown)
    && Carries(w, grown, item.from, item.name)
    && (forall n :: n in grown.pasted && n !in fence.pasted ==>
       n == item.name && Resolved(w, item.from, n) == Declared(grown.pasted[n]))
    && (forall n :: n in grown.refs && n !in fence.refs ==>
       n == item.name && Resolved(w, item.from, n) == Imported(grown.refs[n]))
  }

  lemma FilingKeepsProgress(w: World, root: Item, fence: Fence, queue: seq<Item>, grown: Fence, more: seq<Item>)
    requires Closed(w) && root.from in w.files && queue != [] && queue[0].from in w.files
    requires forall n :: n in fence.pasted ==> Declares(w, fence.pasted[n])
    requires forall n :: n in grown.pasted ==> Declares(w, grown.pasted[n])
    requires Progressing(w, root, fence, queue) && Files(w, fence, queue[0], grown)
    requires forall n, m :: n in grown.pasted && n !in fence.pasted && Mentions(w, grown.pasted[n], m) ==>
        Item(m, grown.pasted[n].file) in more
    ensures Progressing(w, root, grown, queue[1..] + more)
  {
    var rest := queue[1..] + more;
    assert queue == [queue[0]] + queue[1..];
    if root !in rest && root != queue[0] { CarriesGrows(w, fence, grown, root.from, root.name); }
    forall n, m | n in grown.pasted && Mentions(w, grown.pasted[n], m)
      ensures Item(m, grown.pasted[n].file) in rest || Carries(w, grown, grown.pasted[n].file, m)
    {
      var item := Item(m, grown.pasted[n].file);
      if n in fence.pasted && item !in rest && item != queue[0] { CarriesGrows(w, fence, grown, item.from, m); }
    }
  }

  lemma FilingStaysWithin(w: World, entry: string, config: string, fence: Fence, queue: seq<Item>, grown: Fence,
        more: seq<Item>, other: Fence)
    requires Closed(w) && entry in w.files && queue != [] && queue[0].from in w.files
    requires Consistent(w, entry, config, other) && Within(w, fence, queue, other) && Files(w, fence, queue[0], grown)
    requires forall item :: item in more ==>
               exists n ::
                 && n in grown.pasted && Declares(w, grown.pasted[n]) && item.from == grown.pasted[n].file
                 && Mentions(w, grown.pasted[n], item.name)
    ensures Within(w, grown, queue[1..] + more, other)
  {
    assert queue[0] in queue;
    assert Extends(grown, other);
    forall item | item in queue[1..] + more ensures item.from in w.files && Carries(w, other, item.from, item.name) {
      if item in queue[1..] {
        assert item in queue;
      } else {
        var n :| n in grown.pasted && Declares(w, grown.pasted[n]) && item.from == grown.pasted[n].file
          && Mentions(w, grown.pasted[n], item.name);
        assert other.pasted[n] == grown.pasted[n];
      }
    }
  }

  /** The item cannot be filed: it resolves to nothing, or its name is taken. */
  ghost predicate Clashes(w: World, config: string, fence: Fence, item: Item)
    requires Closed(w) && item.from in w.files
  {
    match Resolved(w, item.from, item.name)
    case Declared(key) => (item.name in fence.pasted && fence.pasted[item.name] != key) || item.name in fence.refs
    case Imported(ref) =>
      item.name == config || item.name in fence.pasted || (item.name in fence.refs && fence.refs[item.name] != ref)
    case _ => true
  }

  /** A clash rules every consistent fence out. */
  lemma ClashIsFinal(w: World, entry: string, config: string, fence: Fence, queue: seq<Item>, other: Fence)
    requires Closed(w) && entry in w.files && queue != [] && queue[0].from in w.files
    requires Clashes(w, config, fence, queue[0]) && Within(w, fence, queue, other)
    ensures !Consistent(w, entry, config, other)
  {
    assert queue[0] in queue;
  }

  /** A paste after the first comes from an item some earlier paste supports. */
  lemma PasteIsCalled(w: World, root: Item, pastes: seq<Key>, queue: seq<Item>, key: Key)
    requires Closed(w) && Sourced(w, root, pastes, queue) && queue != [] && pastes != []
    requires queue[0].from in w.files && Resolved(w, queue[0].from, queue[0].name) == Declared(key)
        && key.name == queue[0].name
    ensures Called(w, pastes, key)
  {
    hide Resolved;
    assert queue[0] in queue;
    assert Supported(w, pastes, queue[0]);
    var j :| 0 <= j < |pastes| && pastes[j].file == queue[0].from && Declares(w, pastes[j])
      && Mentions(w, pastes[j], queue[0].name);
    assert Resolved(w, pastes[j].file, key.name) == Declared(key);
  }

  lemma PasteExtendsList(w: World, fence: Fence, pastes: seq<Key>, key: Key)
    requires Closed(w) && Listed(w, fence, pastes) && Declares(w, key)
    requires key.name !in fence.pasted && key.name !in fence.refs
    requires pastes != [] ==> Called(w, pastes, key)
    ensures Listed(w, Fence(fence.pasted[key.name := key], fence.refs), pastes + [key])
  {
    hide Called;
    var longer := pastes + [key];
    forall i | 0 < i < |longer| ensures Called(w, longer[..i], longer[i]) {
      assert longer[..i] == pastes[..i];
      if i == |pastes| { assert pastes[..i] == pastes; }
    }
    forall i, j | 0 <= i < j < |longer| ensures longer[i].name != longer[j].name {
      if j == |pastes| { assert pastes[i] in pastes; }
    }
  }

  lemma SourcedShrinks(w: World, root: Item, pastes: seq<Key>, queue: seq<Item>)
    requires Sourced(w, root, pastes, queue) && queue != []
    ensures Sourced(w, root, pastes, queue[1..])
  {
    assert forall item :: item in queue[1..] ==> item in queue;
  }

  lemma SourcedGrows(w: World, root: Item, pastes: seq<Key>, queue: seq<Item>, key: Key, more: seq<Item>)
    requires Sourced(w, root, pastes, queue) && queue != [] && Declares(w, key)
    requires forall item :: item in more <==> item.from == key.file && Mentions(w, key, item.name)
    ensures Sourced(w, root, pastes + [key], queue[1..] + more)
  {
    var longer := pastes + [key];
    forall item | item in queue[1..] + more ensures Supported(w, longer, item) {
      if item in more {
        assert longer[|pastes|] == key;
      } else {
        assert item in queue;
        var j :| 0 <= j < |pastes| && pastes[j].file == item.from && Declares(w, pastes[j])
          && Mentions(w, pastes[j], item.name);
        assert longer[j] == pastes[j];
      }
    }
  }

  /** The loop invariant; `clean` says that no violation is recorded. */
  ghost predicate Inv(w: World, entry: string, config: string, fence: Fence, pastes: seq<Key>, clean: bool,
        queue: seq<Item>)
    requires Closed(w) && entry in w.files
  {
    var root := Item(config, entry);
    && (forall item :: item in queue ==> item.from in w.files)
    && Sourced(w, root, pastes, queue) && Listed(w, fence, pastes) && config !in fence.refs
    && (pastes == [] ==> fence.pasted == map[] && (queue == [root] || !clean))
    && (pastes != [] ==> Declared(pastes[0]) == Resolved(w, entry, config))
    && (clean ==> Progressing(w, root, fence, queue))
    && (forall other :: Consistent(w, entry, config, other) ==> clean && Within(w, fence, queue, other))
  }

  lemma Begins(w: World, entry: string, config: string)
    requires Closed(w) && entry in w.files
    ensures Inv(w, entry, config, Fence(map[], map[]), [], true, [Item(config, entry)])
  {
  }

  /** An item that clashes is dropped, and no fence can be consistent any more. */
  lemma RejectKeeps(w: World, entry: string, config: string, fence: Fence, pastes: seq<Key>, clean: bool,
        queue: seq<Item>)
    requires Closed(w) && entry in w.files && queue != [] && queue[0].from in w.files
    requires Inv(w, entry, config, fence, pastes, clean, queue) && Clashes(w, config, fence, queue[0])
    ensures Inv(w, entry, config, fence, pastes, false, queue[1..])
    ensures forall other :: !Consistent(w, entry, config, other)
  {
    SourcedShrinks(w, Item(config, entry), pastes, queue);
    hide Consistent, Within, Listed, Sourced, Clashes, Resolved;
    forall other ensures !Consistent(w, entry, config, other) {
      if Consistent(w, entry, config, other) { ClashIsFinal(w, entry, config, fence, queue, other); }
    }
  }

  lemma ListedDeclares(w: World, fence: Fence, pastes: seq<Key>)
    requires Closed(w) && Listed(w, fence, pastes)
    ensures forall n :: n in fence.pasted ==> Declares(w, fence.pasted[n])
  {
  }

  lemma ListedWithRefs(w: World, fence: Fence, pastes: seq<Key>, grown: Fence)
    requires Closed(w) && Listed(w, fence, pastes)
    requires grown.pasted == fence.pasted && grown.pasted.Keys !! grown.refs.Keys
    ensures Listed(w, grown, pastes)
  {
  }

  /** An item whose meaning is already carried, or is carried from now on by an import. */
  lemma ImportKeeps(w: World, entry: string, config: string, fence: Fence, pastes: seq<Key>, clean: bool,
        queue: seq<Item>, grown: Fence)
    requires Closed(w) && entry in w.files && queue != [] && queue[0].from in w.files
    requires Inv(w, entry, config, fence, pastes, clean, queue) && Files(w, fence, queue[0], grown)
    requires grown.pasted == fence.pasted && grown.pasted.Keys !! grown.refs.Keys && config !in grown.refs
    requires Item(config, entry) == queue[0] ==> pastes != []
    ensures Inv(w, entry, config, grown, pastes, clean, queue[1..])
  {
    hide Consistent, Within, Listed, Sourced, Progressing, Files, Resolved, Declares;
    var root := Item(config, entry);
    SourcedShrinks(w, root, pastes, queue);
    ListedDeclares(w, fence, pastes);
    ListedWithRefs(w, fence, pastes, grown);
    assert queue[1..] + [] == queue[1..];
    if clean { FilingKeepsProgress(w, root, fence, queue, grown, []); }
    forall other | Consistent(w, entry, config, other) ensures clean && Within(w, grown, queue[1..], other) {
      FilingStaysWithin(w, entry, config, fence, queue, grown, [], other);
    }
  }

  lemma PasteFiles(w: World, fence: Fence, item: Item, key: Key)
    requires Closed(w) && item.from in w.files && Resolved(w, item.from, item.name) == Declared(key)
    requires item.name !in fence.pasted && item.name !in fence.refs
    ensures Declares(w, key) && key.name == item.name
    ensures Files(w, fence, item, Fence(fence.pasted[item.name := key], fence.refs))
  {
  }

  lemma PasteKeeps(w: World, entry: string, config: string, fence: Fence, pastes: seq<Key>, clean: bool,
        queue: seq<Item>, key: Key, more: seq<Item>)
    requires Closed(w) && entry in w.files && queue != [] && queue[0].from in w.files
    requires Inv(w, entry, config, fence, pastes, clean, queue)
    requires Resolved(w, queue[0].from, queue[0].name) == Declared(key)
    requires queue[0].name !in fence.pasted && queue[0].name !in fence.refs
    requires Declares(w, key) && forall item :: item in more <==> item.from == key.file && Mentions(w, key, item.name)
    ensures Inv(w, entry, config, Fence(fence.pasted[queue[0].name := key], fence.refs), pastes + [key], clean,
        queue[1..] + more)
  {
    hide Consistent, Within, Listed, Sourced, Progressing, Files, Resolved, Declares, Mentions, Called;
    var root, grown := Item(config, entry), Fence(fence.pasted[queue[0].name := key], fence.refs);
    PasteFiles(w, fence, queue[0], key);
    if pastes != [] { PasteIsCalled(w, root, pastes, queue, key); }
    PasteExtendsList(w, fence, pastes, key);
    ListedDeclares(w, fence, pastes);
    ListedDeclares(w, grown, pastes + [key]);
    SourcedGrows(w, root, pastes, queue, key, more);
    if clean { FilingKeepsProgress(w, root, fence, queue, grown, more); }
    FirstPasteIsConfig(w, entry, config, fence, pastes, clean, queue, key);
    forall other | Consistent(w, entry, config, other) ensures clean && Within(w, grown, queue[1..] + more, other) {
      assert grown.pasted[queue[0].name] == key;
      FilingStaysWithin(w, entry, config, fence, queue, grown, more, other);
    }
  }

  lemma FirstPasteIsConfig(w: World, entry: string, config: string, fence: Fence, pastes: seq<Key>, clean: bool,
        queue: seq<Item>, key: Key)
    requires Closed(w) && entry in w.files && queue != [] && queue[0].from in w.files
    requires Inv(w, entry, config, fence, pastes, clean, queue)
    requires Resolved(w, queue[0].from, queue[0].name) == Declared(key)
    ensures Declared((pastes + [key])[0]) == Resolved(w, entry, config)
  {
    hide Consistent, Within, Listed, Progressing, Resolved;
    assert pastes == [] ==> queue == [Item(config, entry)];
  }

  lemma CompleteIsConsistent(w: World, entry: string, config: string, fence: Fence, pastes: seq<Key>)
    requires Closed(w) && entry in w.files && Listed(w, fence, pastes) && config !in fence.refs
    requires forall n :: n in fence.pasted ==> Declares(w, fence.pasted[n])
    requires Progressing(w, Item(config, entry), fence, [])
    ensures Consistent(w, entry, config, fence) && config in fence.pasted && fence.pasted[config] in pastes
  {
    hide Resolved, NothingSuperfluous;
    assert Carries(w, fence, entry, config);
  }

  lemma Finishes(w: World, entry: string, config: string, fence: Fence, pastes: seq<Key>, clean: bool)
    requires Closed(w) && entry in w.files && Inv(w, entry, config, fence, pastes, clean, [])
    ensures clean <==> exists other :: Consistent(w, entry, config, other)
    ensures clean ==>
              Consistent(w, entry, config, fence) && pastes != [] && Declared(pastes[0]) == Resolved(w, entry, config)
    ensures Listed(w, fence, pastes)
  {
    hide Consistent, Within, Listed, Sourced, Progressing, Resolved;
    ListedDeclares(w, fence, pastes);
    if clean { CompleteIsConsistent(w, entry, config, fence, pastes); }
  }

  // ----- endless items

  ghost predicate EndlessItem(w: World, item: Item)
    requires Closed(w)
  {
    item.from in w.files && Resolved(w, item.from, item.name).Endless?
  }

  /** The config type, or a name some paste mentions, is imported without end. */
  ghost predicate MeetsEndless(w: World, root: Item, pastes: seq<Key>)
    requires Closed(w)
  {
    EndlessItem(w, root) || exists item :: Supported(w, pastes, item) && EndlessItem(w, item)
  }

  /** Whatever is mentioned so far and endless is still queued. */
  ghost predicate EndlessQueued(w: World, root: Item, pastes: seq<Key>, queue: seq<Item>)
    requires Closed(w)
  {
    && (EndlessItem(w, root) ==> root in queue)
    && (forall item :: Supported(w, pastes, item) && EndlessItem(w, item) ==> item in queue)
  }

  lemma EndlessBegins(w: World, root: Item)
    requires Closed(w)
    ensures EndlessQueued(w, root, [], [root])
  {
  }

  lemma EndlessFinishes(w: World, entry: string, config: string, fence: Fence, pastes: seq<Key>, clean: bool)
    requires Closed(w) && entry in w.files && Inv(w, entry, config, fence, pastes, clean, [])
    requires EndlessQueued(w, Item(config, entry), pastes, [])
    ensures !MeetsEndless(w, Item(config, entry), pastes)
    ensures NothingSuperfluous(w, pastes) && (pastes != [] ==> StartsAt(w, entry, config, pastes))
  {
    hide EndlessItem, Supported, Within, Progressing, NothingSuperfluous, Resolved;
  }

  lemma EndlessQueuedKept(w: World, root: Item, pastes: seq<Key>, queue: seq<Item>)
    requires Closed(w) && queue != [] && EndlessQueued(w, root, pastes, queue) && !EndlessItem(w, queue[0])
    ensures EndlessQueued(w, root, pastes, queue[1..])
  {
    hide Supported, EndlessItem;
    assert queue == [queue[0]] + queue[1..];
  }

  lemma EndlessQueuedGrows(w: World, root: Item, pastes: seq<Key>, queue: seq<Item>, key: Key, more: seq<Item>)
    requires Closed(w) && EndlessQueued(w, root, pastes, queue)
    requires Declares(w, key) && forall item :: item in more <==> item.from == key.file && Mentions(w, key, item.name)
    ensures EndlessQueued(w, root, pastes + [key], queue + more)
  {
    hide EndlessItem, Mentions, Declares;
    var longer := pastes + [key];
    forall item | Supported(w, longer, item) && EndlessItem(w, item) ensures item in queue + more {
      var j :| 0 <= j < |longer| && longer[j].file == item.from && Declares(w, longer[j])
        && Mentions(w, longer[j], item.name);
      if j < |pastes| { assert Supported(w, pastes, item); }
    }
  }

  /** An endless item at the front of the queue is the config type or mentioned by a paste;
      any other can be taken off. */
  lemma FrontSettles(w: World, entry: string, config: string, fence: Fence, pastes: seq<Key>, clean: bool,
        queue: seq<Item>)
    requires Closed(w) && entry in w.files && queue != [] && Inv(w, entry, config, fence, pastes, clean, queue)
    requires EndlessQueued(w, Item(config, entry), pastes, queue)
    ensures if EndlessItem(w, queue[0]) then MeetsEndless(w, Item(config, entry), pastes)
            else EndlessQueued(w, Item(config, entry), pastes, queue[1..])
    ensures NothingSuperfluous(w, pastes) && (pastes != [] ==> StartsAt(w, entry, config, pastes))
  {
    hide EndlessItem, Supported, Within, Progressing, NothingSuperfluous, Resolved;
    assert queue[0] in queue;
    if !EndlessItem(w, queue[0]) {
      hide Inv, EndlessQueued;
      EndlessQueuedKept(w, Item(config, entry), pastes, queue);
    }
  }

  ghost predicate StartsAt(w: World, entry: string, config: string, pastes: seq<Key>)
    requires Closed(w) && entry in w.files
  {
    pastes != [] && Declared(pastes[0]) == Resolved(w, entry, config)
  }

  // ----- what is reported

  /** The config type, or a name that some paste mentions in its file. */
  ghost predicate IsMention(w: World, root: Item, pastes: seq<Key>, item: Item)
    requires Closed(w)
  {
    item == root || Supported(w, pastes, item)
  }

  /** What a mention is reported for, by what the fence carries under its name. */
  ghost predicate Charged(w: World, config: string, fence: Fence, item: Item, v: Violation)
    requires Closed(w)
  {
    && item.from in w.files
    && match Resolved(w, item.from, item.name)
       case LacksExtension => v == NoExtension(item.from, item.name) || v == Unresolvable(item.name, item.from)
       case AliasedLocally => v == Aliased(item.from, item.name) || v == Unresolvable(item.name, item.from)
       case Unresolved => v == Unresolvable(item.name, item.from)
       case Imported(ref) =>
         || (item.name == config && v == ForeignConfig(item.name))
         || (item.name != config && item.name in fence.pasted && v == DeclaredThenImported(item.name))
         || (item.name != config && item.name in fence.refs && fence.refs[item.name] != ref
             && v == ImportedTwice(item.name))
       case Declared(key) =>
         || (item.name in fence.pasted && fence.pasted[item.name] != key && v == DeclaredTwice(item.name))
         || (item.name in fence.refs && v == ImportedThenDeclared(item.name))
       case Endless => false
  }

  /** The fence carries something under the name, when the item has something to carry. */
  ghost predicate Placed(w: World, config: string, fence: Fence, item: Item)
    requires Closed(w)
  {
    item.from in w.files ==>
      match Resolved(w, item.from, item.name)
      case Imported(_) => item.name == config || item.name in fence.pasted || item.name in fence.refs
      case Declared(_) => item.name in fence.pasted || item.name in fence.refs
      case _ => true
  }

  /** Reported so far is exactly what the items taken off the queue are reported for. */
  ghost predicate ReportedFor(w: World, config: string, fence: Fence, done: set<Item>, violations: seq<Violation>)
    requires Closed(w)
  {
    && fence.pasted.Keys !! fence.refs.Keys
    && (forall item :: item in done ==> Placed(w, config, fence, item))
    && (forall v :: v in violations <==> exists item :: item in done && Charged(w, config, fence, item, v))
  }

  /** All mentions are done or queued, and nothing else is. */
  ghost predicate Accounted(w: World, root: Item, pastes: seq<Key>, done: set<Item>, queue: seq<Item>)
    requires Closed(w)
  {
    forall item :: IsMention(w, root, pastes, item) <==> item in done || item in queue
  }

  ghost predicate GrowsApart(fence: Fence, grown: Fence) {
    && Extends(fence, grown) && grown.pasted.Keys !! grown.refs.Keys
  }

  lemma ChargeStays(w: World, config: string, fence: Fence, grown: Fence, item: Item, v: Violation)
    requires Closed(w) && GrowsApart(fence, grown) && Placed(w, config, fence, item)
    ensures Charged(w, config, fence, item, v) <==> Charged(w, config, grown, item, v)
    ensures Placed(w, config, grown, item)
  {
    hide Resolved;
  }

  /** One item more, with what it is reported for. */
  lemma ReportGrows(w: World, config: string, fence: Fence, grown: Fence, done: set<Item>, item: Item,
        violations: seq<Violation>, more: seq<Violation>)
    requires Closed(w) && ReportedFor(w, config, fence, done, violations) && GrowsApart(fence, grown)
    requires Placed(w, config, grown, item) && forall v :: v in more <==> Charged(w, config, grown, item, v)
    ensures ReportedFor(w, config, grown, done + {item}, violations + more)
  {
    hide Charged, Placed;
    forall other, v | other in done
      ensures Charged(w, config, fence, other, v) <==> Charged(w, config, grown, other, v)
    {
      ChargeStays(w, config, fence, grown, other, v);
    }
    forall other | other in done ensures Placed(w, config, grown, other) {
      ChargeStays(w, config, fence, grown, other, ForeignConfig(config));
    }
    var all := done + {item};
    forall v ensures v in violations + more <==> exists other :: other in all && Charged(w, config, grown, other, v) {
      if v in more { assert item in all && Charged(w, config, grown, item, v); }
      if other :| other in done && Charged(w, config, grown, other, v) {
        assert other in all && Charged(w, config, fence, other, v);
      }
    }
  }

  /** What one round does with an item. */
  ghost predicate Handled(w: World, config: string, fence: Fence, item: Item, grown: Fence, added: seq<Violation>)
    requires Closed(w) && item.from in w.files
  {
    var name, pasted, refs := item.name, fence.pasted, fence.refs;
    match Resolved(w, item.from, name)
    case LacksExtension => grown == fence && added == [NoExtension(item.from, name), Unresolvable(name, item.from)]
    case AliasedLocally => grown == fence && added == [Aliased(item.from, name), Unresolvable(name, item.from)]
    case Unresolved => grown == fence && added == [Unresolvable(name, item.from)]
    case Imported(ref) =>
      if name == config then grown == fence && added == [ForeignConfig(name)]
      else if name in pasted then grown == fence && added == [DeclaredThenImported(name)]
      else if name in refs && refs[name] != ref then grown == fence && added == [ImportedTwice(name)]
      else grown == Fence(pasted, refs[name := ref]) && added == []
    case Declared(key) =>
      if name in pasted then grown == fence && added == if pasted[name] != key then [DeclaredTwice(name)] else []
      else if name in refs then grown == fence && added == [ImportedThenDeclared(name)]
      else grown == Fence(pasted[name := key], refs) && added == []
    case Endless => false
  }

  lemma HandledIsReported(w: World, config: string, fence: Fence, item: Item, grown: Fence, added: seq<Violation>,
        done: set<Item>, violations: seq<Violation>)
    requires Closed(w) && item.from in w.files && Handled(w, config, fence, item, grown, added)
    requires ReportedFor(w, config, fence, done, violations)
    ensures ReportedFor(w, config, grown, done + {item}, violations + added)
  {
    ReportGrows(w, config, fence, grown, done, item, violations, added);
  }

  lemma ReportBegins(w: World, root: Item, config: string)
    requires Closed(w)
    ensures ReportedFor(w, config, Fence(map[], map[]), {}, []) && Accounted(w, root, [], {}, [root])
  {
  }

  lemma ReportEnds(w: World, root: Item, pastes: seq<Key>, config: string, fence: Fence, done: set<Item>,
        violations: seq<Violation>)
    requires Closed(w) && ReportedFor(w, config, fence, done, violations) && Accounted(w, root, pastes, done, [])
    ensures forall v :: v in violations <==> exists item ::
                IsMention(w, root, pastes, item) && Charged(w, config, fence, item, v)
  {
    hide IsMention, Charged;
  }

  lemma AccountedMoves(w: World, root: Item, pastes: seq<Key>, done: set<Item>, queue: seq<Item>)
    requires Closed(w) && queue != [] && Accounted(w, root, pastes, done, queue)
    ensures Accounted(w, root, pastes, done + {queue[0]}, queue[1..])
  {
    hide Supported;
    assert queue == [queue[0]] + queue[1..];
  }

  lemma AccountedGrows(w: World, root: Item, pastes: seq<Key>, done: set<Item>, queue: seq<Item>, key: Key,
        more: seq<Item>)
    requires Closed(w) && Accounted(w, root, pastes, done, queue) && Declares(w, key)
    requires forall item :: item in more <==> item.from == key.file && Mentions(w, key, item.name)
    ensures Accounted(w, root, pastes + [key], done, queue + more)
  {
    hide Mentions, Declares;
    var longer := pastes + [key];
    forall item ensures Supported(w, longer, item) <==> Supported(w, pastes, item) || item in more {
      if Supported(w, pastes, item) {
        var j :| 0 <= j < |pastes| && pastes[j].file == item.from && Declares(w, pastes[j])
          && Mentions(w, pastes[j], item.name);
        assert longer[j] == pastes[j];
      }
      if item in more { assert longer[|pastes|] == key; }
    }
    hide Supported;
  }

  /** The worklist. It ends: with the stack exhausted exactly when the config type, or a
      name mentioned by a declaration gathered so far, is imported without end; and without
      violation exactly when a consistent fence exists, which it then has gathered. Nothing
      gathered is superfluous, and reported is exactly what the mentions clash with. */
  method CollectPastes(w: World, entry: string, config: string) returns (outcome: Outcome, ghost gathered: seq<Key>)
    requires Closed(w) && entry in w.files
    ensures outcome.StackExhausted? <==> MeetsEndless(w, Item(config, entry), gathered)
    ensures NothingSuperfluous(w, gathered) && (gathered != [] ==> StartsAt(w, entry, config, gathered))
    ensures outcome.Collected? ==> gathered == outcome.pastes && Listed(w, outcome.fence, outcome.pastes)
    ensures outcome.Collected? ==> forall v :: v in outcome.violations <==> exists item ::
                IsMention(w, Item(config, entry), gathered, item) && Charged(w, config, outcome.fence, item, v)
    ensures outcome.Collected? && outcome.violations == [] <==> exists fence :: Consistent(w, entry, config, fence)
    ensures outcome.Collected? && outcome.violations == [] ==>
              Consistent(w, entry, config, outcome.fence) && StartsAt(w, entry, config, outcome.pastes)
  {
    hide Inv, Consistent, Listed, EndlessQueued, MeetsEndless, Supported, NothingSuperfluous;
    hide ReportedFor, Accounted;
    var pasted: map<string, Key>, refs: map<string, TypeRef> := map[], map[];
    var pastes: seq<Key>, violations: seq<Violation> := [], [];
    var queue := [Item(config, entry)];
    ghost var root := queue[0];
    Begins(w, entry, config);
    ghost var done: set<Item> := {};
    EndlessBegins(w, root);
    ReportBegins(w, root, config);
    while queue != []
      invariant Inv(w, entry, config, Fence(pasted, refs), pastes, violations == [], queue)
      invariant EndlessQueued(w, root, pastes, queue)
      invariant ReportedFor(w, config, Fence(pasted, refs), done, violations)
      invariant Accounted(w, root, pastes, done, queue)
      decreases DeclaredNames(w) - pasted.Keys, |queue|
    {
      var item := queue[0];
      var name, from := item.name, item.from;
      ghost var fence, waiting, clean := Fence(pasted, refs), queue, violations == [];
      ItemsAreSound(w, entry, config, fence, pastes, clean, queue);
      AccountedMoves(w, root, pastes, done, queue);
      queue := queue[1..];
      var resolved := Resolved(w, from, name);
      if Clashes(w, config, fence, item) { RejectKeeps(w, entry, config, fence, pastes, clean, waiting); }
      FrontSettles(w, entry, config, fence, pastes, clean, waiting);
      var added: seq<Violation> := [];
      match resolved {
        case Endless => return StackExhausted, pastes;
        case LacksExtension => added := [NoExtension(from, name), Unresolvable(name, from)];
        case AliasedLocally => added := [Aliased(from, name), Unresolvable(name, from)];
        case Unresolved => added := [Unresolvable(name, from)];
        case Imported(ref) =>
          if name == config {
            added := [ForeignConfig(name)];
          } else if name in pasted {
            added := [DeclaredThenImported(name)];
          } else if name in refs && refs[name] != ref {
            added := [ImportedTwice(name)];
          } else {
            refs := refs[name := ref];
            ImportKeeps(w, entry, config, fence, pastes, clean, waiting, Fence(pasted, refs));
          }
        case Declared(key) =>
          if name in pasted {
            if pasted[name] != key {
              added := [DeclaredTwice(name)];
            } else {
              ImportKeeps(w, entry, config, fence, pastes, clean, waiting, fence);
            }
          } else if name in refs {
            added := [ImportedThenDeclared(name)];
          } else {
            var more := MentionedItems(w, key);
            PasteKeeps(w, entry, config, fence, pastes, clean, waiting, key, more);
            EndlessQueuedGrows(w, root, pastes, queue, key, more);
            AccountedGrows(w, root, pastes, done + {item}, queue, key, more);
            pasted := pasted[name := key];
            pastes := pastes + [key];
            queue := queue + more;
            assert name in DeclaredNames(w) - fence.pasted.Keys;
            assert DeclaredNames(w) - pasted.Keys < DeclaredNames(w) - fence.pasted.Keys;
          }
      }
      HandledIsReported(w, config, fence, item, Fence(pasted, refs), added, done, violations);
      violations := violations + added;
      done := done + {item};
    }
    ReportEnds(w, root, pastes, config, Fence(pasted, refs), done, violations);
    Finishes(w, entry, config, Fence(pasted, refs), pastes, violations == []);
    EndlessFinishes(w, entry, config, Fence(pasted, refs), pastes, violations == []);
    return Collected(Fence(pasted, refs), pastes, violations), pastes;
  }

  /** What the loop body needs to know about the item at hand. */
  lemma ItemsAreSound(w: World, entry: string, config: string, fence: Fence, pastes: seq<Key>, clean: bool,
        queue: seq<Item>)
    requires Closed(w) && entry in w.files && queue != [] && Inv(w, entry, config, fence, pastes, clean, queue)
    ensures queue[0].from in w.files
    ensures fence.pasted.Keys !! fence.refs.Keys && config !in fence.refs
    ensures fence.pasted != map[] ==> pastes != []
  {
    assert queue[0] in queue;
  }

  // ----- chains of imports that never end

  /** The file the name is looked up in next, when the lookup goes on. */
  function NextFile(w: World, file: string, name: string): (next: Option<string>)
    requires Closed(w) && file in w.files
    ensures next.Some? ==> next.value in w.files
  {
    var ctx := w.files[file];
    if name in ctx.decls || name !in ctx.imports || !ctx.imports[name].source.RelativeFile?
      || ctx.imports[name].imported != name then None
    else Some(ctx.imports[name].source.file)
  }

  /** The file after `n` imports, when there are that many. */
  function Follow(w: World, file: string, name: string, n: nat): (reached: Option<string>)
    requires Closed(w) && file in w.files
    ensures reached.Some? ==> reached.value in w.files
  {
    if n == 0 then Some(file)
    else
      var before := Follow(w, file, name, n - 1);
      if before.None? then None else NextFile(w, before.value, name)
  }

  lemma {:induction false} FollowFromNext(w: World, file: string, name: string, n: nat)
    requires Closed(w) && file in w.files && NextFile(w, file, name).Some?
    ensures Follow(w, file, name, n + 1) == Follow(w, NextFile(w, file, name).value, name, n)
  {
    if n > 0 { FollowFromNext(w, file, name, n - 1); }
  }

  /** A lookup that is not endless comes to a file that settles it. */
  lemma {:induction false} SettledStops(w: World, file: string, name: string, visited: set<string>) returns (n: nat)
    requires Closed(w) && file in w.files && !ResolveTypeName(w, file, name, visited).Endless?
    ensures Follow(w, file, name, n).None?
    decreases w.files.Keys - visited
  {
    var next := NextFile(w, file, name);
    if next.None? {
      assert Follow(w, file, name, 0) == Some(file);
      n := 1;
    } else {
      n := SettledStops(w, next.value, name, visited + {file});
      FollowFromNext(w, file, name, n);
      n := n + 1;
    }
  }

  lemma {:induction false} RepeatGoesOn(w: World, file: string, name: string, i: nat, j: nat, n: nat)
    requires Closed(w) && file in w.files && i < j
    requires Follow(w, file, name, i).Some? && Follow(w, file, name, j) == Follow(w, file, name, i)
    ensures Follow(w, file, name, i + n) == Follow(w, file, name, j + n)
  {
    if n > 0 { RepeatGoesOn(w, file, name, i, j, n - 1); }
  }

  lemma {:induction false} FollowStaysBelow(w: World, file: string, name: string, n: nat, m: nat)
    requires Closed(w) && file in w.files && n <= m && Follow(w, file, name, m).Some?
    ensures Follow(w, file, name, n).Some?
    decreases m
  {
    if n < m { FollowStaysBelow(w, file, name, n, m - 1); }
  }

  lemma {:induction false} RepeatNeverEnds(w: World, file: string, name: string, i: nat, j: nat, n: nat)
    requires Closed(w) && file in w.files && i < j
    requires Follow(w, file, name, j).Some? && Follow(w, file, name, j) == Follow(w, file, name, i)
    ensures Follow(w, file, name, n).Some?
    decreases n
  {
    if n <= j {
      FollowStaysBelow(w, file, name, n, j);
    } else {
      RepeatNeverEnds(w, file, name, i, j, n - (j - i));
      RepeatGoesOn(w, file, name, i, j, n - j);
    }
  }

  /** The file is among the first `k` of the chain. */
  ghost predicate PassedThrough(w: World, start: string, name: string, k: nat, file: string)
    requires Closed(w) && start in w.files
  {
    exists h :: 0 <= h < k && Follow(w, start, name, h) == Some(file)
  }

  /** An endless lookup returns to a file it has been through. */
  lemma {:induction false} EndlessRepeats(w: World, start: string, file: string, name: string, k: nat,
        visited: set<string>) returns (i: nat, j: nat)
    requires Closed(w) && start in w.files && file in w.files && ResolveTypeName(w, file, name, visited).Endless?
    requires Follow(w, start, name, k) == Some(file)
    requires forall v :: v in visited ==> PassedThrough(w, start, name, k, v)
    ensures i < j && Follow(w, start, name, j).Some? && Follow(w, start, name, j) == Follow(w, start, name, i)
    decreases w.files.Keys - visited
  {
    if file in visited {
      i :| 0 <= i < k && Follow(w, start, name, i) == Some(file);
      j := k;
    } else {
      var next := NextFile(w, file, name).value;
      assert Follow(w, start, name, k + 1) == Some(next);
      forall v | v in visited + {file} ensures PassedThrough(w, start, name, k + 1, v) {
        if v in visited {
          assert PassedThrough(w, start, name, k, v);
          var h :| 0 <= h < k && Follow(w, start, name, h) == Some(v);
          assert 0 <= h < k + 1;
        }
      }
      i, j := EndlessRepeats(w, start, next, name, k + 1, visited + {file});
    }
  }

  /** The verdict `Endless` is given exactly when the chain of imports has no end. */
  lemma EndlessIffNoEnd(w: World, file: string, name: string)
    requires Closed(w) && file in w.files
    ensures Resolved(w, file, name).Endless? <==> forall n: nat :: Follow(w, file, name, n).Some?
  {
    if Resolved(w, file, name).Endless? {
      var i, j := EndlessRepeats(w, file, file, name, 0, {});
      forall n: nat ensures Follow(w, file, name, n).Some? { RepeatNeverEnds(w, file, name, i, j, n); }
    } else {
      var n := SettledStops(w, file, name, {});
    }
  }

  /** How the file where a chain of imports ends settles the name. */
  ghost predicate SettlesAs(w: World, file: string, name: string, r: Resolution)
    requires file in w.files
  {
    var ctx := w.files[file];
    if name in ctx.decls then r == Declared(Key(file, name))
    else if name !in ctx.imports then r == Unresolved
    else
      var imp := ctx.imports[name];
      match imp.source
      case Package(pkg) => r == Imported(TypeRef(imp.imported, pkg))
      case RelativeOther(_) => r == LacksExtension
      case RelativeFile(_) => imp.imported != name && r == AliasedLocally
  }

  /** The file is `n` imports away, and there the chain ends. */
  ghost predicate EndsAt(w: World, file: string, name: string, n: nat, end: string)
    requires Closed(w) && file in w.files
  {
    Follow(w, file, name, n) == Some(end) && NextFile(w, end, name).None?
  }

  lemma {:induction false} SettledAtEnd(w: World, file: string, name: string, visited: set<string>)
    returns (n: nat, end: string)
    requires Closed(w) && file in w.files && !ResolveTypeName(w, file, name, visited).Endless?
    ensures EndsAt(w, file, name, n, end) && SettlesAs(w, end, name, ResolveTypeName(w, file, name, visited))
    decreases w.files.Keys - visited
  {
    var next := NextFile(w, file, name);
    n, end := 0, file;
    if next.Some? {
      n, end := SettledAtEnd(w, next.value, name, visited + {file});
      FollowFromNext(w, file, name, n);
      n := n + 1;
    }
  }

  /** Where the chain of imports ends, the name is what its last file makes of it. */
  lemma ResolvedAtEnd(w: World, file: string, name: string)
    requires Closed(w) && file in w.files && !Resolved(w, file, name).Endless?
    ensures exists n, end :: EndsAt(w, file, name, n, end) && SettlesAs(w, end, name, Resolved(w, file, name))
  {
    var n, end := SettledAtEnd(w, file, name, {});
  }

  /** `a.ts` imports `C` from itself. */
  const CIRCULAR := World(map["a.ts" := FileCtx(map[], map[], map["C" := Import("C", RelativeFile("a.ts"))], [])],
    map[])

  /** Collecting what `C` pastes exhausts the stack at once, whatever was gathered. */
  lemma CircularImportExhausts(gathered: seq<Key>)
    ensures Closed(CIRCULAR) && Resolved(CIRCULAR, "a.ts", "C").Endless?
    ensures MeetsEndless(CIRCULAR, Item("C", "a.ts"), gathered)
  {
    var ctx := CIRCULAR.files["a.ts"];
    assert "C" in ctx.imports && ctx.imports["C"] == Import("C", RelativeFile("a.ts"));
    assert ResolveTypeName(CIRCULAR, "a.ts", "C", {} + {"a.ts"}) == Endless;
    assert EndlessItem(CIRCULAR, Item("C", "a.ts"));
  }
}
