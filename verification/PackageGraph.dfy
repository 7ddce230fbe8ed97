/** The dependency-safe order of the workspace packages: layer by layer, each layer
    sorted by group and name. */
module PackageGraph {
  import opened Sorting
  import opened Wrappers

  /** One package, and the in-repository packages it depends on, by short name. */
  datatype Package = Package(short: string, group: string, rel: string, deps: seq<string>)

  datatype Result = Sorted(packages: seq<Package>) | CycleAmong(names: seq<string>)

  // ----- comparing packages

  function IndexOfGroup(groups: seq<string>, group: string): (index: int)
    ensures -1 <= index < |groups|
  {
    if groups == [] then -1
    else if groups[0] == group then 0
    else
      var later := IndexOfGroup(groups[1..], group);
      if later == -1 then -1 else later + 1
  }

  function GroupRank(groups: seq<string>, group: string): int {
    var index := IndexOfGroup(groups, group);
    if index == -1 then MAX_SAFE_INTEGER else index
  }

  /** `locale` stands for `localeCompare`. */
  function ComparePackages(a: Package, b: Package, groups: seq<string>, locale: (string, string) -> int): int {
    var byRank := GroupRank(groups, a.group) - GroupRank(groups, b.group);
    if byRank != 0 then byRank
    else
      var byGroup := locale(a.group, b.group);
      if byGroup != 0 then byGroup else locale(a.short, b.short)
  }

  function Comparison(groups: seq<string>, locale: (string, string) -> int): (Package, Package) -> int {
    (a: Package, b: Package) => ComparePackages(a, b, groups, locale)
  }

  lemma ComparisonConsistent(groups: seq<string>, locale: (string, string) -> int)
    requires Comparator(locale)
    ensures Comparator(Comparison(groups, locale))
  {
    hide GroupRank;
  }

  // ----- the `Map` of packages still to be placed

  /** The values of a `Map` built from the list: a repeated name keeps its first place
      and takes its last value. */
  function MapValues(packages: seq<Package>): (values: seq<Package>)
    decreases |packages|
  {
    if packages == [] then []
    else
      var init, last := packages[..|packages| - 1], packages[|packages| - 1];
      Set(MapValues(init), last)
  }

  function Set(values: seq<Package>, p: Package): seq<Package> {
    if values == [] then [p]
    else if values[0].short == p.short then [p] + values[1..]
    else [values[0]] + Set(values[1..], p)
  }

  ghost predicate DistinctNames(values: seq<Package>) {
    forall i, j :: 0 <= i < j < |values| ==> values[i].short != values[j].short
  }

  function Names(packages: seq<Package>): set<string> {
    set p | p in packages :: p.short
  }

  lemma SetMembers(values: seq<Package>, p: Package)
    requires DistinctNames(values)
    ensures DistinctNames(Set(values, p))
    ensures forall q :: q in Set(values, p) <==> q == p || (q in values && q.short != p.short)
  {
    if values != [] && values[0].short != p.short {
      SetMembers(values[1..], p);
      var rest := Set(values[1..], p);
      assert forall q :: q in values <==> q == values[0] || q in values[1..];
      assert forall i :: 0 <= i < |rest| ==> rest[i] in rest;
      assert forall q :: q in values[1..] ==> q.short != values[0].short;
    } else if values != [] {
      assert forall q :: q in values <==> q == values[0] || q in values[1..];
    }
  }

  lemma ValuesDistinct(packages: seq<Package>)
    ensures DistinctNames(MapValues(packages))
  {
    if packages != [] {
      var init, last := packages[..|packages| - 1], packages[|packages| - 1];
      ValuesDistinct(init);
      SetMembers(MapValues(init), last);
    }
  }

  /** A list without repeated names is its own `Map`. */
  lemma DistinctKept(packages: seq<Package>)
    requires DistinctNames(packages)
    ensures MapValues(packages) == packages
  {
    if packages != [] {
      var init, last := packages[..|packages| - 1], packages[|packages| - 1];
      DistinctKept(init);
      SetAppends(init, last);
      assert packages == init + [last];
    }
  }

  lemma SetAppends(values: seq<Package>, p: Package)
    requires forall q :: q in values ==> q.short != p.short
    ensures Set(values, p) == values + [p]
  {
    if values != [] {
      assert values[0] in values;
      SetAppends(values[1..], p);
    }
  }

  /** `name` occurs in the list where `other` has not yet. */
  ghost predicate OccursBefore(packages: seq<Package>, name: string, other: string) {
    exists a :: 0 <= a < |packages| && packages[a].short == name && other !in Names(packages[..a])
  }

  /** `p` is listed, and no package of its name behind it. */
  ghost predicate IsLastOfName(packages: seq<Package>, p: Package) {
    exists a :: 0 <= a < |packages| && packages[a] == p && p.short !in Names(packages[a + 1..])
  }

  /** `Set` writes over the value of the name, or appends. */
  lemma {:induction false} SetPlaces(values: seq<Package>, p: Package)
    ensures if p.short in Names(values)
            then exists k :: 0 <= k < |values| && values[k].short == p.short && Set(values, p) == values[k := p]
            else Set(values, p) == values + [p]
  {
    if values != [] {
      assert forall q :: q in values <==> q == values[0] || q in values[1..];
      if values[0].short == p.short {
        assert Set(values, p) == values[0 := p];
      } else {
        var rest := values[1..];
        SetPlaces(rest, p);
        if p.short in Names(rest) {
          var k :| 0 <= k < |rest| && rest[k].short == p.short && Set(rest, p) == rest[k := p];
          assert values[k + 1] == rest[k] && [values[0]] + rest[k := p] == values[k + 1 := p];
        }
      }
    }
  }

  lemma OccurrenceStays(packages: seq<Package>, last: Package, x: string, y: string)
    requires OccursBefore(packages, x, y)
    ensures OccursBefore(packages + [last], x, y)
  {
    var longer := packages + [last];
    var a :| 0 <= a < |packages| && packages[a].short == x && y !in Names(packages[..a]);
    assert longer[a] == packages[a] && longer[..a] == packages[..a];
  }

  lemma NewNameIsLater(packages: seq<Package>, x: string, y: string)
    requires x in Names(packages) && y !in Names(packages)
    ensures OccursBefore(packages, x, y)
  {
    var a :| 0 <= a < |packages| && packages[a].short == x;
    assert forall q :: q in packages[..a] ==> q in packages;
  }

  lemma LastOfNameStays(packages: seq<Package>, last: Package, p: Package)
    requires p == last || (IsLastOfName(packages, p) && p.short != last.short)
    ensures IsLastOfName(packages + [last], p)
  {
    var longer := packages + [last];
    if p == last {
      assert longer[|packages|] == last && longer[|packages| + 1..] == [];
    } else {
      var a :| 0 <= a < |packages| && packages[a] == p && p.short !in Names(packages[a + 1..]);
      assert longer[a] == p && longer[a + 1..] == packages[a + 1..] + [last];
    }
  }

  /** Every name is there once, in the order of first occurrence, with its last package. */
  ghost predicate IsMapOf(values: seq<Package>, packages: seq<Package>) {
    && DistinctNames(values) && Names(values) == Names(packages)
    && (forall i :: 0 <= i < |values| ==> IsLastOfName(packages, values[i]))
    && (forall i, j :: 0 <= i < j < |values| ==> OccursBefore(packages, values[i].short, values[j].short))
  }

  lemma {:induction false} MapIsExact(packages: seq<Package>)
    ensures IsMapOf(MapValues(packages), packages)
  {
    if packages != [] {
      hide Set, IsMapOf;
      var init, last := packages[..|packages| - 1], packages[|packages| - 1];
      assert packages == init + [last];
      MapIsExact(init);
      ValuesDistinct(packages);
      SetPlaces(MapValues(init), last);
      MapStaysExact(MapValues(init), init, MapValues(packages), last);
    }
  }

  lemma MapStaysExact(values: seq<Package>, packages: seq<Package>, longer: seq<Package>, last: Package)
    requires IsMapOf(values, packages) && DistinctNames(longer)
    requires if last.short in Names(values)
             then exists k :: 0 <= k < |values| && values[k].short == last.short && longer == values[k := last]
             else longer == values + [last]
    ensures IsMapOf(longer, packages + [last])
  {
    hide OccursBefore, IsLastOfName;
    assert forall q :: q in packages + [last] <==> q in packages || q == last;
    assert forall i :: 0 <= i < |values| ==> longer[i].short == values[i].short && values[i] in values;
    assert forall q :: q in longer ==> q == last || q in values;
    assert last in longer;
    assert Names(longer) == Names(values) + {last.short} by {
      forall i | 0 <= i < |values| ensures values[i].short in Names(longer) { assert longer[i] in longer; }
    }
    forall i | 0 <= i < |longer| ensures IsLastOfName(packages + [last], longer[i]) {
      LastOfNameStays(packages, last, longer[i]);
    }
    forall i, j | 0 <= i < j < |longer|
      ensures OccursBefore(packages + [last], longer[i].short, longer[j].short)
    {
      if j >= |values| { NewNameIsLater(packages, longer[i].short, last.short); }
      OccurrenceStays(packages, last, longer[i].short, longer[j].short);
    }
  }

  function Unplaced(values: seq<Package>, placed: set<string>): seq<Package> {
    if values == [] then []
    else (if values[0].short in placed then [] else [values[0]]) + Unplaced(values[1..], placed)
  }

  predicate IsReady(p: Package, placed: set<string>) {
    forall d | d in p.deps :: d in placed
  }

  function Ready(remaining: seq<Package>, placed: set<string>): seq<Package> {
    if remaining == [] then []
    else (if IsReady(remaining[0], placed) then [remaining[0]] else []) + Ready(remaining[1..], placed)
  }

  lemma UnplacedMembers(values: seq<Package>, placed: set<string>)
    ensures forall p :: p in Unplaced(values, placed) <==> p in values && p.short !in placed
  {
  }

  lemma ReadyMembers(remaining: seq<Package>, placed: set<string>)
    ensures forall p :: p in Ready(remaining, placed) <==> p in remaining && IsReady(p, placed)
  {
  }

  lemma UnplacedTwice(values: seq<Package>, a: set<string>, b: set<string>)
    ensures Unplaced(Unplaced(values, a), b) == Unplaced(values, a + b)
  {
    if values != [] {
      UnplacedTwice(values[1..], a, b);
      var rest := Unplaced(values[1..], a);
      if values[0].short in a {
        assert Unplaced(values, a) == rest;
      } else {
        assert ([values[0]] + rest)[1..] == rest;
      }
    }
  }

  lemma UnplacedShrinks(values: seq<Package>, placed: set<string>)
    ensures |Unplaced(values, placed)| <= |values|
    ensures (exists p :: p in values && p.short in placed) ==> |Unplaced(values, placed)| < |values|
  {
    if values != [] {
      UnplacedShrinks(values[1..], placed);
    }
  }

  // ----- what the order is to be

  function Members(values: seq<Package>): set<Package> {
    set p | p in values
  }

  /** Packages of the workspace, none twice, each after everything it depends on. */
  ghost predicate SafeOrder(all: set<Package>, order: seq<Package>) {
    && (forall i :: 0 <= i < |order| ==> order[i] in all)
    && (forall i, j :: 0 <= i < j < |order| ==> order[i] != order[j])
    && (forall i :: 0 <= i < |order| ==> IsReady(order[i], Names(order[..i])))
  }

  ghost predicate Orderable(all: set<Package>) {
    exists order :: SafeOrder(all, order) && Members(order) == all
  }

  ghost predicate Placeable(all: set<Package>, p: Package) {
    exists order :: SafeOrder(all, order) && p in order
  }

  /** `k` dependencies in a row lead on from `p`. */
  ghost predicate HasChain(all: set<Package>, p: Package, k: nat)
    decreases k
  {
    p in all && (k > 0 ==> exists q :: q in all && q.short in p.deps && HasChain(all, q, k - 1))
  }

  /** The longest chain of dependencies from `p` has length `k`. */
  ghost predicate DepthIs(all: set<Package>, p: Package, k: nat) {
    HasChain(all, p, k) && forall j: nat :: HasChain(all, p, j) ==> j <= k
  }

  ghost function Depth(all: set<Package>, p: Package): nat {
    if exists k: nat :: DepthIs(all, p, k) then var k: nat :| DepthIs(all, p, k); k else 0
  }

  lemma DepthUnique(all: set<Package>, p: Package, k: nat)
    requires DepthIs(all, p, k)
    ensures Depth(all, p) == k && DepthIs(all, p, Depth(all, p))
  {
  }

  /** `p` comes before `q` in the list. */
  ghost predicate Earlier(values: seq<Package>, p: Package, q: Package) {
    exists i, j :: 0 <= i < j < |values| && values[i] == p && values[j] == q
  }

  /** Shallower first; in a layer by group and name; what ties, as in the manifest list. */
  ghost predicate Before(values: seq<Package>, groups: seq<string>, locale: (string, string) -> int, p: Package,
        q: Package)
  {
    var here, there := Depth(Members(values), p), Depth(Members(values), q);
    var order := ComparePackages(p, q, groups, locale);
    here < there || (here == there && (order < 0 || (order == 0 && Earlier(values, p, q))))
  }

  ghost function Precedence(values: seq<Package>, groups: seq<string>,
        locale: (string, string) -> int): (Package, Package) -> bool
  {
    (p: Package, q: Package) => Before(values, groups, locale, p, q)
  }

  /** A safe order of all packages, by depth, then by group and name. */
  ghost predicate IsTopoSort(values: seq<Package>, groups: seq<string>, locale: (string, string) -> int,
        out: seq<Package>)
  {
    && SafeOrder(Members(values), out)
    && Members(out) == Members(values)
    && (forall p :: p in values ==> DepthIs(Members(values), p, Depth(Members(values), p)))
    && SortedBy(out, Precedence(values, groups, locale))
  }

  // ----- the order within a layer, as it is listed

  /** `g` occurs among the groups, and `h` does not occur up to there. */
  ghost predicate ListedBefore(groups: seq<string>, g: string, h: string) {
    exists i :: 0 <= i < |groups| && groups[i] == g && forall j :: 0 <= j <= i ==> groups[j] != h
  }

  /** Of two packages of one depth, the one whose group is listed first comes first, a listed
      group before an unlisted one; two unlisted groups go by the locale, then the names in a
      group do; what is still undecided keeps the order of the manifests. */
  ghost predicate LayersByGroup(values: seq<Package>, groups: seq<string>, locale: (string, string) -> int,
        out: seq<Package>)
  {
    forall i, j :: 0 <= i < j < |out| && Depth(Members(values), out[i]) == Depth(Members(values), out[j]) ==>
      ComesFirst(values, groups, locale, out[i], out[j])
  }

  ghost predicate ComesFirst(values: seq<Package>, groups: seq<string>, locale: (string, string) -> int, p: Package,
        q: Package)
  {
    && !ListedBefore(groups, q.group, p.group)
    && (ListedBefore(groups, p.group, q.group) || p.group == q.group || locale(p.group, q.group) <= 0)
    && (p.group == q.group || (p.group !in groups && q.group !in groups && locale(p.group, q.group) == 0) ==>
          locale(p.short, q.short) <= 0 && (locale(p.short, q.short) == 0 ==> Earlier(values, p, q)))
  }

  lemma {:induction false} IndexIsFirst(groups: seq<string>, group: string)
    ensures var index := IndexOfGroup(groups, group);
            && (index == -1 <==> group !in groups) && (index != -1 ==> groups[index] == group)
            && forall k :: 0 <= k < |groups| && groups[k] == group ==> index <= k
  {
    if groups != [] && groups[0] != group {
      IndexIsFirst(groups[1..], group);
      forall k | 0 <= k < |groups| && groups[k] == group ensures IndexOfGroup(groups, group) <= k {
        assert groups[1..][k - 1] == group;
      }
    }
  }

  /** A group that ranks lower is listed before, and the ranks of listed groups differ. */
  lemma RankIsListing(groups: seq<string>, g: string, h: string)
    requires |groups| <= MAX_SAFE_INTEGER
    ensures GroupRank(groups, g) < GroupRank(groups, h) <==> ListedBefore(groups, g, h)
    ensures GroupRank(groups, g) == GroupRank(groups, h) <==> g == h || (g !in groups && h !in groups)
  {
    IndexIsFirst(groups, g);
    IndexIsFirst(groups, h);
    var a, b := IndexOfGroup(groups, g), IndexOfGroup(groups, h);
    if a != -1 && (b == -1 || a < b) { assert groups[a] == g && forall j :: 0 <= j <= a ==> groups[j] != h; }
  }

  lemma SortedByGroup(values: seq<Package>, groups: seq<string>, locale: (string, string) -> int, out: seq<Package>)
    requires |groups| <= MAX_SAFE_INTEGER && Comparator(locale) && SortedBy(out, Precedence(values, groups, locale))
    ensures LayersByGroup(values, groups, locale, out)
  {
    hide Depth, Earlier, GroupRank, ListedBefore, Members;
    forall i, j | 0 <= i < j < |out| && Depth(Members(values), out[i]) == Depth(Members(values), out[j])
      ensures ComesFirst(values, groups, locale, out[i], out[j])
    {
      assert Precedence(values, groups, locale)(out[i], out[j]);
      RankIsListing(groups, out[i].group, out[j].group);
      RankIsListing(groups, out[j].group, out[i].group);
      SameText(locale, out[i].group);
    }
  }

  lemma SameText(locale: (string, string) -> int, text: string)
    requires Comparator(locale)
    ensures locale(text, text) == 0
  {
  }

  // ----- one round of the loop

  /** What the three variables hold between rounds. */
  ghost predicate State(values: seq<Package>, remaining: seq<Package>, placed: set<string>, out: seq<Package>) {
    && placed == Names(out)
    && remaining == Unplaced(values, placed)
    && SafeOrder(Members(values), out)
  }

  ghost predicate Closed(values: seq<Package>) {
    forall p :: p in values ==> IsReady(p, Names(values))
  }

  ghost predicate Layered(values: seq<Package>, remaining: seq<Package>, out: seq<Package>, round: nat) {
    && (forall p :: p in out ==>
       DepthIs(Members(values), p, Depth(Members(values), p)) && Depth(Members(values), p) < round)
    && (forall p :: p in remaining ==> HasChain(Members(values), p, round))
  }

  /** When no package is ready, no order at all places one of those that remain. */
  lemma StuckForever(values: seq<Package>, remaining: seq<Package>, placed: set<string>, out: seq<Package>,
        order: seq<Package>, i: nat)
    requires State(values, remaining, placed, out) && Ready(remaining, placed) == []
    requires SafeOrder(Members(values), order) && i < |order|
    ensures order[i] !in remaining && order[i].short in placed
    decreases i
  {
    UnplacedMembers(values, placed);
    ReadyMembers(remaining, placed);
    forall d | d in order[i].deps ensures d in placed {
      var q :| q in order[..i] && q.short == d;
      var j :| 0 <= j < i && order[j] == q;
      StuckForever(values, remaining, placed, out, order, j);
    }
    assert IsReady(order[i], placed);
    assert order[i] in values;
  }

  lemma PlacedIsOut(values: seq<Package>, remaining: seq<Package>, placed: set<string>, out: seq<Package>, p: Package)
    requires State(values, remaining, placed, out) && DistinctNames(values) && p in values
    ensures p in remaining <==> p !in out
    ensures p in out <==> p.short in placed
  {
    UnplacedMembers(values, placed);
    if p.short in placed {
      var q :| q in out && q.short == p.short;
      assert q in Members(values);
    }
  }

  /** Exactly the packages that remain can be placed by no order. */
  lemma StuckExactly(values: seq<Package>, remaining: seq<Package>, placed: set<string>, out: seq<Package>, p: Package)
    requires State(values, remaining, placed, out) && DistinctNames(values) && Ready(remaining, placed) == []
        && p in values
    ensures p in remaining <==> !Placeable(Members(values), p)
  {
    PlacedIsOut(values, remaining, placed, out, p);
    forall order | SafeOrder(Members(values), order) && p in order ensures p !in remaining {
      var i :| 0 <= i < |order| && order[i] == p;
      StuckForever(values, remaining, placed, out, order, i);
    }
  }

  /** What is ready in a round has no longer chain than the number of rounds before. */
  lemma ReadyDepth(values: seq<Package>, remaining: seq<Package>, placed: set<string>, out: seq<Package>, round: nat,
        p: Package)
    requires State(values, remaining, placed, out) && DistinctNames(values) && Layered(values, remaining, out, round)
    requires p in remaining && IsReady(p, placed)
    ensures DepthIs(Members(values), p, round) && Depth(Members(values), p) == round
  {
    var all := Members(values);
    forall j: nat | HasChain(all, p, j) ensures j <= round {
      if j > 0 {
        var q :| q in all && q.short in p.deps && HasChain(all, q, j - 1);
        PlacedIsOut(values, remaining, placed, out, q);
      }
    }
    DepthUnique(all, p, round);
  }

  /** What is not ready waits for a package that is not ready to be placed either. */
  lemma WaitingDepth(values: seq<Package>, remaining: seq<Package>, placed: set<string>, out: seq<Package>, round: nat,
        p: Package)
    requires State(values, remaining, placed, out) && DistinctNames(values) && Layered(values, remaining, out, round)
    requires Closed(values) && p in remaining && !IsReady(p, placed)
    ensures HasChain(Members(values), p, round + 1)
  {
    var d :| d in p.deps && d !in placed;
    UnplacedMembers(values, placed);
    assert d in Names(values);
    var q :| q in values && q.short == d;
    PlacedIsOut(values, remaining, placed, out, q);
    assert q in Members(values) && q.short in p.deps && HasChain(Members(values), q, round);
  }

  /** The next round's state: the ready packages have moved, in whatever order. */
  lemma StateAfter(values: seq<Package>, remaining: seq<Package>, placed: set<string>, out: seq<Package>,
        ready: seq<Package>)
    requires State(values, remaining, placed, out) && DistinctNames(values)
    requires forall i, j :: 0 <= i < j < |ready| ==> ready[i] != ready[j]
    requires forall p :: p in ready ==> p in remaining && IsReady(p, placed)
    ensures State(values, Unplaced(remaining, Names(ready)), placed + Names(ready), out + ready)
  {
    UnplacedTwice(values, placed, Names(ready));
    NamesTogether(out, ready);
    UnplacedMembers(values, placed);
    forall p | p in ready ensures p in Members(values) && p.short !in placed && IsReady(p, placed) {}
    SafeAfter(Members(values), placed, out, ready);
  }

  lemma NamesTogether(out: seq<Package>, ready: seq<Package>)
    ensures Names(out + ready) == Names(out) + Names(ready)
  {
  }

  lemma SafeAfter(all: set<Package>, placed: set<string>, out: seq<Package>, ready: seq<Package>)
    requires SafeOrder(all, out) && placed == Names(out)
    requires forall i, j :: 0 <= i < j < |ready| ==> ready[i] != ready[j]
    requires forall p :: p in ready ==> p in all && p.short !in placed && IsReady(p, placed)
    ensures SafeOrder(all, out + ready)
  {
    hide IsReady;
    var longer := out + ready;
    forall i | 0 <= i < |longer| ensures longer[i] in all && IsReady(longer[i], Names(longer[..i])) {
      if i < |out| {
        assert longer[..i] == out[..i];
      } else {
        assert longer[i] == ready[i - |out|] && longer[i] in ready;
        assert longer[..i] == out + ready[..i - |out|];
        NamesTogether(out, ready[..i - |out|]);
        ReadyStays(longer[i], placed, Names(longer[..i]));
      }
    }
    forall i, j | 0 <= i < j < |longer| ensures longer[i] != longer[j] {
      if i < |out| <= j {
        assert ready[j - |out|] in ready && out[i] in out;
        assert out[i].short in placed;
      }
    }
  }

  lemma ReadyStays(p: Package, placed: set<string>, more: set<string>)
    requires IsReady(p, placed) && placed <= more
    ensures IsReady(p, more)
  {
  }

  lemma LayeredAfter(values: seq<Package>, remaining: seq<Package>, placed: set<string>, out: seq<Package>,
        ready: seq<Package>, round: nat)
    requires State(values, remaining, placed, out) && DistinctNames(values) && Layered(values, remaining, out, round)
        && Closed(values)
    requires forall p :: p in ready <==> p in remaining && IsReady(p, placed)
    ensures Layered(values, Unplaced(remaining, Names(ready)), out + ready, round + 1)
    ensures forall p :: p in ready ==> Depth(Members(values), p) == round
  {
    hide HasChain, IsReady;
    forall p | p in ready
      ensures DepthIs(Members(values), p, Depth(Members(values), p)) && Depth(Members(values), p) == round
    {
      ReadyDepth(values, remaining, placed, out, round, p);
    }
    UnplacedMembers(remaining, Names(ready));
    forall p | p in Unplaced(remaining, Names(ready)) ensures HasChain(Members(values), p, round + 1) {
      WaitingDepth(values, remaining, placed, out, round, p);
    }
  }

  // ----- sorting one layer

  lemma ReadyInOrder(values: seq<Package>, placed: set<string>, i: nat, j: nat)
    requires i < j < |Ready(Unplaced(values, placed), placed)|
    ensures var ready := Ready(Unplaced(values, placed), placed); Earlier(values, ready[i], ready[j])
  {
    ReadyEarlier(Unplaced(values, placed), placed, i, j);
    var remaining, ready := Unplaced(values, placed), Ready(Unplaced(values, placed), placed);
    var a, b :| 0 <= a < b < |remaining| && remaining[a] == ready[i] && remaining[b] == ready[j];
    UnplacedEarlier(values, placed, a, b);
  }

  lemma {:induction false} ReadyEarlier(remaining: seq<Package>, placed: set<string>, i: nat, j: nat)
    requires i < j < |Ready(remaining, placed)|
    ensures Earlier(remaining, Ready(remaining, placed)[i], Ready(remaining, placed)[j])
  {
    var rest := Ready(remaining[1..], placed);
    if !IsReady(remaining[0], placed) {
      ReadyEarlier(remaining[1..], placed, i, j);
      EarlierInTail(remaining, rest[i], rest[j]);
    } else if i > 0 {
      ReadyEarlier(remaining[1..], placed, i - 1, j - 1);
      EarlierInTail(remaining, rest[i - 1], rest[j - 1]);
    } else {
      ReadyMembers(remaining[1..], placed);
      assert rest[j - 1] in rest;
      HeadEarlier(remaining, rest[j - 1]);
    }
  }

  lemma {:induction false} UnplacedEarlier(values: seq<Package>, placed: set<string>, i: nat, j: nat)
    requires i < j < |Unplaced(values, placed)|
    ensures Earlier(values, Unplaced(values, placed)[i], Unplaced(values, placed)[j])
  {
    var rest := Unplaced(values[1..], placed);
    if values[0].short in placed {
      UnplacedEarlier(values[1..], placed, i, j);
      EarlierInTail(values, rest[i], rest[j]);
    } else if i > 0 {
      UnplacedEarlier(values[1..], placed, i - 1, j - 1);
      EarlierInTail(values, rest[i - 1], rest[j - 1]);
    } else {
      UnplacedMembers(values[1..], placed);
      assert rest[j - 1] in rest;
      HeadEarlier(values, rest[j - 1]);
    }
  }

  lemma EarlierInTail(values: seq<Package>, p: Package, q: Package)
    requires values != [] && Earlier(values[1..], p, q)
    ensures Earlier(values, p, q)
  {
    var i, j :| 0 <= i < j < |values| - 1 && values[1..][i] == p && values[1..][j] == q;
    assert values[i + 1] == p && values[j + 1] == q;
  }

  lemma HeadEarlier(values: seq<Package>, q: Package)
    requires values != [] && q in values[1..]
    ensures Earlier(values, values[0], q)
  {
    var j :| 0 < j < |values| && values[j] == q;
    assert values[0] == values[0];
  }

  /** One sorted layer, once its depth is known. */
  lemma LayerSorted(values: seq<Package>, groups: seq<string>, locale: (string, string) -> int, placed: set<string>,
                    ready: seq<Package>, order: seq<nat>, round: nat)
    requires DistinctNames(values)
    requires var found := Ready(Unplaced(values, placed), placed);
             && Orders(found, Comparison(groups, locale), order, |found|)
             && |ready| == |found| && forall i :: 0 <= i < |ready| ==> ready[i] == found[order[i]]
    requires forall p :: p in ready ==> Depth(Members(values), p) == round
    ensures SortedBy(ready, Precedence(values, groups, locale))
  {
    hide Depth, ComparePackages;
    var found := Ready(Unplaced(values, placed), placed);
    forall i, j | 0 <= i < j < |ready| ensures Before(values, groups, locale, ready[i], ready[j]) {
      assert ready[i] in ready && ready[j] in ready;
      assert InOrder(found, Comparison(groups, locale), order[i], order[j]);
      if order[i] < order[j] { ReadyInOrder(values, placed, order[i], order[j]); }
    }
  }

  lemma AppendSorted(a: seq<Package>, b: seq<Package>, before: (Package, Package) -> bool)
    requires SortedBy(a, before) && SortedBy(b, before) && forall p, q :: p in a && q in b ==> before(p, q)
    ensures SortedBy(a + b, before)
  {
    var s := a + b;
    forall i, j | 0 <= i < j < |s| ensures before(s[i], s[j]) {
      if i < |a| <= j { assert a[i] in a && b[j - |a|] in b; }
    }
  }

  lemma EarlierNotBack(values: seq<Package>, p: Package, q: Package)
    requires DistinctNames(values) && Earlier(values, p, q)
    ensures p != q && !Earlier(values, q, p)
  {
    var i, j :| 0 <= i < j < |values| && values[i] == p && values[j] == q;
    forall k, l | 0 <= k < l < |values| && values[k] == q ensures values[l] != p {
      assert k == j;
    }
  }

  lemma LayerDistinct(values: seq<Package>, placed: set<string>, compare: (Package, Package) -> int,
        ready: seq<Package>, order: seq<nat>)
    requires DistinctNames(values) && Comparator(compare)
    requires var found := Ready(Unplaced(values, placed), placed);
             && Orders(found, compare, order, |found|)
             && |ready| == |found| && forall i :: 0 <= i < |ready| ==> ready[i] == found[order[i]]
    ensures forall i, j :: 0 <= i < j < |ready| ==> ready[i] != ready[j]
  {
    var found := Ready(Unplaced(values, placed), placed);
    forall i, j | 0 <= i < j < |ready| ensures ready[i] != ready[j] {
      assert InOrder(found, compare, order[i], order[j]);
      if order[i] < order[j] {
        ReadyInOrder(values, placed, order[i], order[j]);
        EarlierNotBack(values, ready[i], ready[j]);
      } else if order[j] < order[i] {
        ReadyInOrder(values, placed, order[j], order[i]);
        EarlierNotBack(values, ready[j], ready[i]);
      }
    }
  }

  /** The whole of one round, for the layer that the sort returned. */
  lemma RoundStep(values: seq<Package>, groups: seq<string>, locale: (string, string) -> int, placed: set<string>,
                  out: seq<Package>, ready: seq<Package>, order: seq<nat>, round: nat)
    requires DistinctNames(values) && Comparator(Comparison(groups, locale))
    requires State(values, Unplaced(values, placed), placed, out)
    requires var found := Ready(Unplaced(values, placed), placed);
             && Orders(found, Comparison(groups, locale), order, |found|)
             && |ready| == |found| && forall i :: 0 <= i < |ready| ==> ready[i] == found[order[i]]
    requires Closed(values) ==>
        Layered(values, Unplaced(values, placed), out, round) && SortedBy(out, Precedence(values, groups, locale))
    ensures var remaining := Unplaced(Unplaced(values, placed), Names(ready));
            && State(values, remaining, placed + Names(ready), out + ready)
            && (ready != [] ==> |remaining| < |Unplaced(values, placed)|)
            && (Closed(values) ==>
               Layered(values, remaining, out + ready, round + 1)
               && SortedBy(out + ready, Precedence(values, groups, locale)))
  {
    hide State, Layered, Closed, Orders, Ready, Unplaced, DistinctNames, Comparator, Comparison, SortedBy, Before;
    hide IsReady;
    var remaining := Unplaced(values, placed);
    var found := Ready(remaining, placed);
    SortedMembers(found, Comparison(groups, locale), order, ready);
    ReadyMembers(remaining, placed);
    LayerDistinct(values, placed, Comparison(groups, locale), ready, order);
    StateAfter(values, remaining, placed, out, ready);
    UnplacedShrinks(remaining, Names(ready));
    assert ready != [] ==> ready[0] in remaining && ready[0].short in Names(ready);
    if Closed(values) {
      LayeredAfter(values, remaining, placed, out, ready, round);
      LayerSorted(values, groups, locale, placed, ready, order, round);
      LayersInOrder(values, groups, locale, remaining, out, ready, round);
      AppendSorted(out, ready, Precedence(values, groups, locale));
    }
  }

  lemma LayersInOrder(values: seq<Package>, groups: seq<string>, locale: (string, string) -> int,
        remaining: seq<Package>, out: seq<Package>, ready: seq<Package>, round: nat)
    requires Layered(values, remaining, out, round) && forall p :: p in ready ==> Depth(Members(values), p) == round
    ensures forall p, q :: p in out && q in ready ==> Precedence(values, groups, locale)(p, q)
  {
  }

  lemma EmptyState(values: seq<Package>, groups: seq<string>, locale: (string, string) -> int)
    ensures Unplaced(values, {}) == values && State(values, values, {}, []) && Layered(values, values, [], 0)
  {
    NothingPlaced(values);
  }

  lemma NothingPlaced(values: seq<Package>)
    ensures Unplaced(values, {}) == values
  {
    if values != [] { NothingPlaced(values[1..]); }
  }

  /** Nothing remains: every dependency was known, and every package is out. */
  lemma AllOut(values: seq<Package>, placed: set<string>, out: seq<Package>)
    requires State(values, [], placed, out) && DistinctNames(values)
    ensures Members(out) == Members(values) && Closed(values) && Orderable(Members(values))
  {
    forall p | p in values ensures p in out && IsReady(p, Names(values)) {
      PlacedIsOut(values, [], placed, out, p);
      var i :| 0 <= i < |out| && out[i] == p;
      assert Names(out[..i]) <= Names(values);
    }
  }

  lemma Finished(values: seq<Package>, groups: seq<string>, locale: (string, string) -> int, placed: set<string>,
        out: seq<Package>, round: nat)
    requires State(values, [], placed, out) && DistinctNames(values)
    requires Closed(values) ==> Layered(values, [], out, round) && SortedBy(out, Precedence(values, groups, locale))
    ensures IsTopoSort(values, groups, locale, out) && Orderable(Members(values))
  {
    AllOut(values, placed, out);
    assert forall p :: p in out <==> p in Members(out);
    assert forall p :: p in values <==> p in Members(values);
  }

  /** A name belongs to a package that no dependency-safe order places. */
  ghost predicate IsStuck(values: seq<Package>, name: string) {
    exists p :: p in values && p.short == name && !Placeable(Members(values), p)
  }

  function Shorts(packages: seq<Package>): seq<string> {
    if packages == [] then [] else [packages[0].short] + Shorts(packages[1..])
  }

  lemma ShortsAreNames(packages: seq<Package>)
    ensures forall n :: n in Shorts(packages) <==> n in Names(packages)
  {
    if packages != [] {
      ShortsAreNames(packages[1..]);
      assert forall p :: p in packages <==> p == packages[0] || p in packages[1..];
    }
  }

  lemma StuckNames(values: seq<Package>, remaining: seq<Package>, placed: set<string>, out: seq<Package>)
    requires State(values, remaining, placed, out) && DistinctNames(values) && Ready(remaining, placed) == []
        && remaining != []
    ensures forall n :: n in Shorts(remaining) <==> IsStuck(values, n)
    ensures !Orderable(Members(values))
  {
    hide State, Ready, DistinctNames, Placeable;
    UnplacedInside(values, remaining, placed, out);
    ShortsAreNames(remaining);
    forall p | p in values ensures p in remaining <==> !Placeable(Members(values), p) {
      StuckExactly(values, remaining, placed, out, p);
    }
    assert forall n :: n in Names(remaining) <==> IsStuck(values, n);
    assert remaining[0] in values && remaining[0] in Members(values);
    NotPlaceable(Members(values), remaining[0]);
  }

  /** Each of these names is one of the list, and they stand in its order. */
  ghost predicate NamedInOrder(values: seq<Package>, names: seq<string>) {
    forall i, j :: 0 <= i < j < |names| ==> names[i] != names[j] && OccursBefore(values, names[i], names[j])
  }

  lemma StuckInOrder(values: seq<Package>, placed: set<string>)
    requires DistinctNames(values)
    ensures NamedInOrder(values, Shorts(Unplaced(values, placed)))
  {
    var stuck := Unplaced(values, placed);
    ShortsAt(stuck);
    forall i, j | 0 <= i < j < |stuck|
      ensures stuck[i].short != stuck[j].short && OccursBefore(values, stuck[i].short, stuck[j].short)
    {
      UnplacedEarlier(values, placed, i, j);
      var a, b :| 0 <= a < b < |values| && values[a] == stuck[i] && values[b] == stuck[j];
      assert forall c :: 0 <= c < a ==> values[..a][c].short != values[b].short;
    }
  }

  lemma ShortsAt(packages: seq<Package>)
    ensures |Shorts(packages)| == |packages|
    ensures forall i :: 0 <= i < |packages| ==> Shorts(packages)[i] == packages[i].short
  {
  }

  lemma UnplacedInside(values: seq<Package>, remaining: seq<Package>, placed: set<string>, out: seq<Package>)
    requires State(values, remaining, placed, out)
    ensures forall p :: p in remaining ==> p in values
  {
    UnplacedMembers(values, placed);
  }

  lemma NotPlaceable(all: set<Package>, p: Package)
    requires p in all && !Placeable(all, p)
    ensures !Orderable(all)
  {
  }

  /** The layered sort succeeds exactly when some dependency-safe order of all packages
      exists; otherwise it names exactly the packages that none can place, each once and in
      the order of the map. No array is too long for its last index to rank before what is
      not listed. */
  method TopoSort(packages: seq<Package>, groups: seq<string>, locale: (string, string) -> int) returns (result: Result)
    requires Comparator(locale)
    ensures result.Sorted? <==> Orderable(Members(MapValues(packages)))
    ensures match result
            case Sorted(out) =>
              && IsTopoSort(MapValues(packages), groups, locale, out)
              && (|groups| <= MAX_SAFE_INTEGER ==> LayersByGroup(MapValues(packages), groups, locale, out))
            case CycleAmong(names) =>
              && (forall n :: n in names <==> IsStuck(MapValues(packages), n))
              && NamedInOrder(MapValues(packages), names)
  {
    hide State, Layered, Closed, Unplaced, Ready, DistinctNames, MapValues, Comparator, Precedence, Orderable, IsStuck;
    hide Shorts;
    var values := MapValues(packages);
    ValuesDistinct(packages);
    ComparisonConsistent(groups, locale);
    EmptyState(values, groups, locale);
    var remaining := values;
    var placed: set<string> := {};
    var out := [];
    ghost var round := 0;
    while |remaining| > 0
      invariant State(values, remaining, placed, out) && remaining == Unplaced(values, placed)
      invariant Closed(values) ==>
          Layered(values, remaining, out, round) && SortedBy(out, Precedence(values, groups, locale))
      decreases |remaining|
    {
      var ready, order := StableSort(Ready(remaining, placed), Comparison(groups, locale));
      if |ready| == 0 {
        StuckNames(values, remaining, placed, out);
        StuckInOrder(values, placed);
        return CycleAmong(Shorts(remaining));
      }
      RoundStep(values, groups, locale, placed, out, ready, order, round);
      out, placed, remaining := PlaceLayer(out, placed, remaining, ready);
      round := round + 1;
      StateRemaining(values, remaining, placed, out);
    }
    Finished(values, groups, locale, placed, out, round);
    if |groups| <= MAX_SAFE_INTEGER { SortedByGroup(values, groups, locale, out); }
    return Sorted(out);
  }

  lemma StateRemaining(values: seq<Package>, remaining: seq<Package>, placed: set<string>, out: seq<Package>)
    requires State(values, remaining, placed, out)
    ensures remaining == Unplaced(values, placed)
  {
  }

  /** The inner loop: each package of the layer is put out, marked and taken away. */
  method PlaceLayer(out: seq<Package>, placed: set<string>, remaining: seq<Package>, ready: seq<Package>)
    returns (out': seq<Package>, placed': set<string>, remaining': seq<Package>)
    ensures out' == out + ready && placed' == placed + Names(ready) && remaining' == Unplaced(remaining, Names(ready))
  {
    out', placed', remaining' := out, placed, remaining;
    NothingPlaced(remaining);
    assert ready[..0] == [] && Names([]) == {};
    for i := 0 to |ready|
      invariant out' == out + ready[..i] && placed' == placed + Names(ready[..i])
      invariant remaining' == Unplaced(remaining, Names(ready[..i]))
    {
      assert ready[..i + 1] == ready[..i] + [ready[i]];
      assert Names(ready[..i + 1]) == Names(ready[..i]) + {ready[i].short};
      UnplacedTwice(remaining, Names(ready[..i]), {ready[i].short});
      out' := out' + [ready[i]];
      placed' := placed' + {ready[i].short};
      remaining' := Unplaced(remaining', {ready[i].short});
    }
    assert ready[..|ready|] == ready;
  }

  // ----- one answer for every manifest order

  lemma BeforeIsStrict(values: seq<Package>, groups: seq<string>, locale: (string, string) -> int, p: Package,
        q: Package)
    requires DistinctNames(values) && Comparator(locale) && Before(values, groups, locale, p, q)
    ensures !Before(values, groups, locale, q, p)
  {
    hide ComparePackages, Depth, Earlier;
    ComparisonConsistent(groups, locale);
    assert Comparison(groups, locale)(p, q) == ComparePackages(p, q, groups, locale);
    assert Comparison(groups, locale)(q, p) == ComparePackages(q, p, groups, locale);
    if Earlier(values, p, q) { EarlierNotBack(values, p, q); }
  }

  /** Two different packages of the same layer never tie. */
  ghost predicate NoTies(all: set<Package>, groups: seq<string>, locale: (string, string) -> int) {
    forall p, q :: p in all && q in all && p != q && Depth(all, p) == Depth(all, q) ==>
      ComparePackages(p, q, groups, locale) != 0
  }

  /** Without ties, listing the manifests in another order changes nothing. */
  lemma ManifestOrderIrrelevant(values: seq<Package>, other: seq<Package>, groups: seq<string>,
        locale: (string, string) -> int, out: seq<Package>, otherOut: seq<Package>)
    requires DistinctNames(values) && DistinctNames(other) && Members(values) == Members(other) && Comparator(locale)
    requires NoTies(Members(values), groups, locale)
    requires IsTopoSort(values, groups, locale, out) && IsTopoSort(other, groups, locale, otherOut)
    ensures out == otherOut
  {
    var before := Precedence(values, groups, locale);
    forall i, j | 0 <= i < j < |otherOut| ensures before(otherOut[i], otherOut[j]) {
      assert Precedence(other, groups, locale)(otherOut[i], otherOut[j]);
      assert otherOut[i] in Members(values) && otherOut[j] in Members(values) && otherOut[i] != otherOut[j];
    }
    forall p, q | before(p, q) ensures !before(q, p) { BeforeIsStrict(values, groups, locale, p, q); }
    assert forall p :: p in out <==> p in Members(out);
    assert forall p :: p in otherOut <==> p in Members(otherOut);
    SortedUnique(out, otherOut, before);
  }

  /** With a tie the listing shows through: the pair comes out as it was listed. */
  lemma TiesFollowManifest(values: seq<Package>, groups: seq<string>, locale: (string, string) -> int,
        out: seq<Package>, p: Package, q: Package)
    requires DistinctNames(values) && Comparator(locale) && IsTopoSort(values, groups, locale, out)
    requires p in values && q in values && p != q
    requires Depth(Members(values), p) == Depth(Members(values), q) && ComparePackages(p, q, groups, locale) == 0
    ensures Earlier(out, p, q) <==> Earlier(values, p, q)
  {
    assert p in Members(out) && q in Members(out);
    var i :| 0 <= i < |out| && out[i] == p;
    var j :| 0 <= j < |out| && out[j] == q;
    if i < j {
      assert Precedence(values, groups, locale)(out[i], out[j]);
      assert Earlier(out, p, q);
    } else {
      assert Precedence(values, groups, locale)(out[j], out[i]);
      TieIsSymmetric(groups, locale, p, q);
      EarlierNotBack(values, q, p);
      OnlyThere(values, groups, locale, out, i, j);
    }
  }

  lemma TieIsSymmetric(groups: seq<string>, locale: (string, string) -> int, p: Package, q: Package)
    requires Comparator(locale) && ComparePackages(p, q, groups, locale) == 0
    ensures ComparePackages(q, p, groups, locale) == 0
  {
  }

  lemma OnlyThere(values: seq<Package>, groups: seq<string>, locale: (string, string) -> int, out: seq<Package>, i: nat,
        j: nat)
    requires SafeOrder(Members(values), out) && j < i < |out|
    ensures !Earlier(out, out[i], out[j])
  {
    forall a, b | 0 <= a < b < |out| && out[a] == out[i] ensures out[b] != out[j] {
      assert a == i;
    }
  }

  // ----- exactly when the manifest order shows

  /** From any point of the rounds an orderable list can be sorted to the end. */
  lemma {:induction false} RoundsEnd(values: seq<Package>, groups: seq<string>, locale: (string, string) -> int,
                                     placed: set<string>, out: seq<Package>, round: nat) returns (sorted: seq<Package>)
    requires DistinctNames(values) && Comparator(locale) && Orderable(Members(values))
    requires State(values, Unplaced(values, placed), placed, out)
    requires Closed(values) ==>
               Layered(values, Unplaced(values, placed), out, round)
                 && SortedBy(out, Precedence(values, groups, locale))
    ensures IsTopoSort(values, groups, locale, sorted)
    decreases |Unplaced(values, placed)|
  {
    hide State, Layered, Closed, Unplaced, Ready, DistinctNames, Comparator, Precedence, Orderable, Shorts, IsTopoSort;
    var remaining := Unplaced(values, placed);
    if remaining == [] {
      Finished(values, groups, locale, placed, out, round);
      return out;
    }
    ComparisonConsistent(groups, locale);
    var found := Ready(remaining, placed);
    var order := OrderExists(found, Comparison(groups, locale), |found|);
    var ready := Permuted(found, order);
    if ready == [] {
      StuckNames(values, remaining, placed, out);
    } else {
      RoundStep(values, groups, locale, placed, out, ready, order, round);
      var later := Unplaced(remaining, Names(ready));
      StateRemaining(values, later, placed + Names(ready), out + ready);
      sorted := RoundsEnd(values, groups, locale, placed + Names(ready), out + ready, round + 1);
    }
  }

  function Permuted(found: seq<Package>, order: seq<nat>): (ready: seq<Package>)
    requires Lists(order, |found|)
    ensures |ready| == |order| && forall i :: 0 <= i < |order| ==> ready[i] == found[order[i]]
  {
    seq(|order|, i requires 0 <= i < |order| => found[order[i]])
  }

  lemma SortExists(values: seq<Package>, groups: seq<string>, locale: (string, string) -> int)
    returns (out: seq<Package>)
    requires DistinctNames(values) && Comparator(locale) && Orderable(Members(values))
    ensures IsTopoSort(values, groups, locale, out)
  {
    hide State, Layered, Closed, Unplaced, DistinctNames, Comparator, Precedence, Orderable, IsTopoSort;
    EmptyState(values, groups, locale);
    out := RoundsEnd(values, groups, locale, {}, [], 0);
  }

  /** Another listing of the same manifests. */
  ghost predicate Relists(packages: seq<Package>, other: seq<Package>) {
    multiset(other) == multiset(packages)
  }

  lemma RelistsMembers(packages: seq<Package>, other: seq<Package>)
    requires Relists(packages, other)
    ensures Members(other) == Members(packages)
  {
    forall p ensures p in other <==> p in packages {
      assert p in other <==> p in multiset(other);
      assert p in packages <==> p in multiset(packages);
    }
  }

  lemma ListedElsewhere(packages: seq<Package>, p: Package, first: bool) returns (other: seq<Package>)
    requires p in packages
    ensures Relists(packages, other) && other != []
    ensures if first then other[0] == p else other[|other| - 1] == p
  {
    var i :| 0 <= i < |packages| && packages[i] == p;
    var rest := packages[..i] + packages[i + 1..];
    assert packages == packages[..i] + [p] + packages[i + 1..];
    other := if first then [p] + rest else rest + [p];
  }

  /** The map takes the last manifest of a name. */
  lemma LastIsTaken(packages: seq<Package>)
    requires packages != []
    ensures packages[|packages| - 1] in MapValues(packages)
  {
    var init, last := packages[..|packages| - 1], packages[|packages| - 1];
    ValuesDistinct(init);
    SetMembers(MapValues(init), last);
  }

  lemma FirstNameStays(packages: seq<Package>)
    requires packages != []
    ensures MapValues(packages) != [] && MapValues(packages)[0].short == packages[0].short
  {
    if |packages| > 1 { FirstNameStays(packages[..|packages| - 1]); }
  }

  /** No two different manifests share a name. */
  ghost predicate NoRepeats(packages: seq<Package>) {
    forall p, q :: p in packages && q in packages && p.short == q.short ==> p == q
  }

  lemma {:induction false} NothingLost(packages: seq<Package>)
    requires NoRepeats(packages)
    ensures Members(MapValues(packages)) == Members(packages)
    decreases |packages|
  {
    if packages != [] {
      var init, last := packages[..|packages| - 1], packages[|packages| - 1];
      assert packages == init + [last];
      assert forall p :: p in init ==> p in packages;
      NothingLost(init);
      ValuesDistinct(init);
      SetMembers(MapValues(init), last);
      forall p ensures p in MapValues(packages) <==> p in packages {
        assert p in MapValues(init) <==> p in Members(MapValues(init));
        assert p in init <==> p in Members(init);
      }
    }
  }

  ghost predicate SortsListing(packages: seq<Package>, groups: seq<string>, locale: (string, string) -> int,
        other: seq<Package>, out: seq<Package>) {
    Relists(packages, other) && IsTopoSort(MapValues(other), groups, locale, out)
  }

  ghost predicate CanBeOrdered(packages: seq<Package>) {
    Orderable(Members(MapValues(packages)))
  }

  /** However the manifests are listed, the packages can be ordered or not alike, and come
      out in one order. */
  ghost predicate OneOrder(packages: seq<Package>, groups: seq<string>, locale: (string, string) -> int) {
    && (forall other :: Relists(packages, other) ==> (CanBeOrdered(other) <==> CanBeOrdered(packages)))
    && (forall a, b, out, out' ::
          SortsListing(packages, groups, locale, a, out) && SortsListing(packages, groups, locale, b, out') ==>
            out == out')
  }

  /** Two listings that come out differently, or of which one only can be ordered. */
  lemma ListingsDiffer(packages: seq<Package>, groups: seq<string>, locale: (string, string) -> int, a: seq<Package>,
        b: seq<Package>, out: seq<Package>, out': seq<Package>)
    requires CanBeOrdered(packages) && Relists(packages, a) && Relists(packages, b)
    requires CanBeOrdered(a) && CanBeOrdered(b) ==>
        IsTopoSort(MapValues(a), groups, locale, out) && IsTopoSort(MapValues(b), groups, locale, out') && out != out'
    ensures !OneOrder(packages, groups, locale)
  {
    if CanBeOrdered(a) && CanBeOrdered(b) {
      assert SortsListing(packages, groups, locale, a, out) && SortsListing(packages, groups, locale, b, out');
    }
  }

  /** A repeated name shows: the package that comes out is the manifest listed last. */
  lemma RepeatShows(packages: seq<Package>, groups: seq<string>, locale: (string, string) -> int, p: Package,
        q: Package)
    requires Comparator(locale) && CanBeOrdered(packages)
    requires p in packages && q in packages && p != q && p.short == q.short
    ensures !OneOrder(packages, groups, locale)
  {
    hide Comparator, Relists, MapValues, SafeOrder, Orderable;
    var a := ListedElsewhere(packages, p, false);
    var b := ListedElsewhere(packages, q, false);
    LastIsTaken(a);
    LastIsTaken(b);
    ValuesDistinct(a);
    ValuesDistinct(b);
    OneOfAName(MapValues(a), p, q);
    var out, out': seq<Package> := [], [];
    if CanBeOrdered(a) && CanBeOrdered(b) {
      out := SortExists(MapValues(a), groups, locale);
      out' := SortExists(MapValues(b), groups, locale);
      assert q in Members(MapValues(b)) && q in Members(out');
      assert q !in Members(MapValues(a)) && q !in Members(out);
    }
    ListingsDiffer(packages, groups, locale, a, b, out, out');
  }

  lemma OneOfAName(values: seq<Package>, p: Package, q: Package)
    requires DistinctNames(values) && p in values && p != q && p.short == q.short
    ensures q !in values
  {
    var i :| 0 <= i < |values| && values[i] == p;
    forall j | 0 <= j < |values| ensures values[j] != q {
      if i < j { assert values[i].short != values[j].short; }
      if j < i { assert values[j].short != values[i].short; }
    }
  }

  /** The one listed first comes first of two that tie. */
  lemma FirstOfTie(packages: seq<Package>, groups: seq<string>, locale: (string, string) -> int, p: Package, q: Package,
        a: seq<Package>, out: seq<Package>)
    requires Comparator(locale) && NoRepeats(packages) && q in packages && p != q
    requires SortsListing(packages, groups, locale, a, out) && a != [] && a[0] == p
    requires Depth(Members(packages), p) == Depth(Members(packages), q) && ComparePackages(p, q, groups, locale) == 0
    ensures Earlier(out, p, q)
  {
    hide IsTopoSort, Depth, ComparePackages, Comparator, MapValues, Earlier;
    RelistsMembers(packages, a);
    assert forall x :: x in a <==> x in Members(a);
    assert forall x :: x in packages <==> x in Members(packages);
    NothingLost(a);
    FirstNameStays(a);
    ValuesDistinct(a);
    var values := MapValues(a);
    assert forall x :: x in values <==> x in Members(values);
    assert values[0] in values && values[0] == p;
    assert q in values;
    assert q in values[1..];
    HeadEarlier(values, q);
    TiesFollowManifest(values, groups, locale, out, p, q);
  }

  lemma TieShows(packages: seq<Package>, groups: seq<string>, locale: (string, string) -> int, p: Package, q: Package)
    requires Comparator(locale) && CanBeOrdered(packages) && NoRepeats(packages)
    requires p in packages && q in packages && p != q
    requires Depth(Members(packages), p) == Depth(Members(packages), q) && ComparePackages(p, q, groups, locale) == 0
    ensures !OneOrder(packages, groups, locale)
  {
    hide IsTopoSort, Orderable, Depth, ComparePackages, Members, Comparator, Relists, NoRepeats, MapValues;
    TieIsSymmetric(groups, locale, p, q);
    var a := ListedElsewhere(packages, p, true);
    var b := ListedElsewhere(packages, q, true);
    ValuesDistinct(a);
    ValuesDistinct(b);
    var out, out': seq<Package> := [], [];
    if CanBeOrdered(a) && CanBeOrdered(b) {
      out := SortExists(MapValues(a), groups, locale);
      out' := SortExists(MapValues(b), groups, locale);
      FirstOfTie(packages, groups, locale, p, q, a, out);
      FirstOfTie(packages, groups, locale, q, p, b, out');
      SortIsDistinct(MapValues(a), groups, locale, out);
      EarlierNotBack(out, p, q);
    }
    ListingsDiffer(packages, groups, locale, a, b, out, out');
  }

  lemma SortIsDistinct(values: seq<Package>, groups: seq<string>, locale: (string, string) -> int, out: seq<Package>)
    requires DistinctNames(values) && IsTopoSort(values, groups, locale, out)
    ensures DistinctNames(out)
  {
    forall i, j | 0 <= i < j < |out| ensures out[i].short != out[j].short {
      assert out[i] in Members(values) && out[j] in Members(values);
      if out[i].short == out[j].short { OneOfAName(values, out[i], out[j]); }
    }
  }

  lemma WithoutTiesOneOrder(packages: seq<Package>, groups: seq<string>, locale: (string, string) -> int)
    requires Comparator(locale) && NoRepeats(packages) && NoTies(Members(packages), groups, locale)
    ensures OneOrder(packages, groups, locale)
  {
    hide IsTopoSort, Orderable, NoTies, Comparator, Members, MapValues;
    NothingLost(packages);
    forall a | Relists(packages, a)
      ensures DistinctNames(MapValues(a)) && Members(MapValues(a)) == Members(packages)
    {
      RelistsMembers(packages, a);
      RepeatsRelisted(packages, a);
      NothingLost(a);
      ValuesDistinct(a);
    }
    forall a, b, out, out' | SortsListing(packages, groups, locale, a, out)
      && SortsListing(packages, groups, locale, b, out')
      ensures out == out'
    {
      ManifestOrderIrrelevant(MapValues(a), MapValues(b), groups, locale, out, out');
    }
  }

  lemma RepeatsRelisted(packages: seq<Package>, other: seq<Package>)
    requires Relists(packages, other) && NoRepeats(packages)
    ensures NoRepeats(other)
  {
    RelistsMembers(packages, other);
    assert forall p :: p in other ==> p in Members(other);
    assert forall p :: p in Members(packages) ==> p in packages;
  }

  /** Packages that can be ordered come out in one order, however their manifests are
      listed, exactly when no two different manifests share a name and no two packages of
      a layer tie. */
  lemma OneOrderIff(packages: seq<Package>, groups: seq<string>, locale: (string, string) -> int)
    requires Comparator(locale) && CanBeOrdered(packages)
    ensures OneOrder(packages, groups, locale) <==>
              NoRepeats(packages) && NoTies(Members(packages), groups, locale)
  {
    hide Depth, ComparePackages, Comparator, CanBeOrdered, OneOrder;
    if !NoRepeats(packages) {
      var p, q :| p in packages && q in packages && p.short == q.short && p != q;
      RepeatShows(packages, groups, locale, p, q);
    } else if !NoTies(Members(packages), groups, locale) {
      var all := Members(packages);
      var p, q :| p in all && q in all && p != q && Depth(all, p) == Depth(all, q)
                  && ComparePackages(p, q, groups, locale) == 0;
      TieShows(packages, groups, locale, p, q);
    } else {
      WithoutTiesOneOrder(packages, groups, locale);
    }
  }

  /** Two manifests of one name: the package is the one listed last, tie or no tie. */
  lemma RepeatedNameTakesLast(p: Package, q: Package)
    requires p.short == q.short
    ensures MapValues([p, q]) == [q] && MapValues([q, p]) == [p]
  {
    MapOfTwo(p, q);
    MapOfTwo(q, p);
  }

  lemma MapOfTwo(p: Package, q: Package)
    requires p.short == q.short
    ensures MapValues([p, q]) == [q]
  {
    assert [p, q][..1] == [p] && [p][..0] == [];
    assert MapValues([p]) == [p];
  }
}
